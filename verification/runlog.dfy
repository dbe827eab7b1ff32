/** The run log kept in the memory file: under `published`, the slugs
    published on each local date, in publishing order. */
module RunLog {
  /** `mem["published"]`: ISO date to the slugs published that day. */
  type Log = map<string, seq<string>>

  /** Every slug the log records, whatever the day. */
  ghost function Recorded(log: Log): set<string> {
    set d, s | d in log && s in log[d] :: s
  }

  /** `mem["published"].setdefault(today, []).append(slug)`. */
  function RecordPublished(log: Log, today: string, slug: string): (r: Log)
    ensures today in r && |r[today]| >= 1 && r[today][|r[today]| - 1] == slug
    ensures today in log ==> r[today][..|r[today]| - 1] == log[today]
    ensures today !in log ==> r[today] == [slug]
    ensures r.Keys == log.Keys + {today}
    ensures forall d :: d in log && d != today ==> r[d] == log[d]
  {
    var before := if today in log then log[today] else [];
    log[today := before + [slug]]
  }

  /** The log only grows: every day's list before the run is a prefix of the
      list after it. */
  lemma RecordOnlyAppends(log: Log, today: string, slug: string)
    ensures var r := RecordPublished(log, today, slug);
      forall d :: d in log ==> d in r && log[d] <= r[d]
  {
    var r := RecordPublished(log, today, slug);
    forall d | d in log ensures d in r && log[d] <= r[d] {
      if d == today {
        assert log[d] == r[d][..|r[d]| - 1];
      }
    }
  }

  /** After a run the log records exactly the slugs it recorded before and
      the new one. */
  lemma RecordAddsSlug(log: Log, today: string, slug: string)
    ensures Recorded(RecordPublished(log, today, slug)) == Recorded(log) + {slug}
  {
    var r := RecordPublished(log, today, slug);
    forall s | s in Recorded(r) ensures s in Recorded(log) + {slug} {
      var d :| d in r && s in r[d];
      if d == today && s != slug {
        var k :| 0 <= k < |r[d]| && r[d][k] == s;
        assert k < |r[d]| - 1;
        assert today in log;
        assert s == log[d][k];
      }
    }
    forall s | s in Recorded(log) + {slug} ensures s in Recorded(r) {
      if s == slug {
        assert r[today][|r[today]| - 1] == slug;
        assert slug in r[today];
      } else {
        var d :| d in log && s in log[d];
        RecordOnlyAppends(log, today, slug);
        var k :| 0 <= k < |log[d]| && log[d][k] == s;
        assert r[d][k] == s;
        assert s in r[d];
      }
    }
  }
}
