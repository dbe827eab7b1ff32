/** Python's `html.escape(s, quote=True)`, which the publisher applies to every
    piece of user-supplied text it places in a page, and the decoding that
    undoes it. */
module Html {
  import opened Text

  /** The characters `html.escape` rewrites. */
  predicate IsSpecial(c: char) {
    c == '&' || c == '<' || c == '>' || c == '"' || c == '\''
  }

  /** The replacement for one character: the five entities `html.escape`
      uses, in the spelling it uses (`&#x27;` for the apostrophe). */
  function EscapeChar(c: char): string {
    match c
    case '&' => "&amp;"
    case '<' => "&lt;"
    case '>' => "&gt;"
    case '"' => "&quot;"
    case '\'' => "&#x27;"
    case _ => [c]
  }

  /** Text that can sit inside an element or a quoted attribute value without
      opening a tag, closing one, or ending the attribute. */
  predicate NoMarkup(s: string) {
    forall i :: 0 <= i < |s| ==> s[i] != '<' && s[i] != '>' && s[i] != '"' && s[i] != '\''
  }

  /** `html.escape(s)`. */
  function Escape(s: string): (r: string)
    ensures NoMarkup(r)
    ensures |r| >= |s|
    ensures (forall i :: 0 <= i < |s| ==> !IsSpecial(s[i])) ==> r == s
  {
    if s == [] then []
    else
      EscapeStep(s[0], s[1..], Escape(s[1..]));
      assert s == [s[0]] + s[1..];
      EscapeChar(s[0]) + Escape(s[1..])
  }

  /** One step of `Escape`: the properties of the escaped rest carry over once
      the first character's replacement is put in front. */
  lemma EscapeStep(c: char, t: string, e: string)
    requires NoMarkup(e) && |e| >= |t|
    requires (forall i :: 0 <= i < |t| ==> !IsSpecial(t[i])) ==> e == t
    ensures var r, s := EscapeChar(c) + e, [c] + t;
      && NoMarkup(r)
      && |r| >= |s|
      && ((forall i :: 0 <= i < |s| ==> !IsSpecial(s[i])) ==> r == s)
  {
    var x, s := EscapeChar(c), [c] + t;
    assert NoMarkup(x);
    assert NoMarkup(x + e) by {
      forall i | 0 <= i < |x + e| ensures (x + e)[i] != '<' && (x + e)[i] != '>' && (x + e)[i] != '"' && (x + e)[i] != '\'' {
        if i >= |x| {
          assert (x + e)[i] == e[i - |x|];
        }
      }
    }
    if forall i :: 0 <= i < |s| ==> !IsSpecial(s[i]) {
      assert !IsSpecial(s[0]);
      forall i | 0 <= i < |t| ensures !IsSpecial(t[i]) {
        assert t[i] == s[i + 1];
      }
    }
  }

  /** Escaping distributes over concatenation. */
  lemma {:induction false} EscapeAppend(a: string, b: string)
    ensures Escape(a + b) == Escape(a) + Escape(b)
    decreases |a|
  {
    if a != [] {
      assert (a + b)[0] == a[0] && (a + b)[1..] == a[1..] + b;
      EscapeAppend(a[1..], b);
      calc {
        Escape(a + b);
        EscapeChar(a[0]) + Escape(a[1..] + b);
        EscapeChar(a[0]) + (Escape(a[1..]) + Escape(b));
        (EscapeChar(a[0]) + Escape(a[1..])) + Escape(b);
        Escape(a) + Escape(b);
      }
    } else {
      assert a + b == b;
    }
  }

  /** Every character of the escaped text either comes from the input or is
      part of one of the five entity spellings. */
  predicate EntityChar(c: char) {
    c in "&;#x27amplgtquo"
  }

  lemma {:induction false} EscapeIntroducesOnlyEntityChars(s: string, c: char)
    requires c !in s && !EntityChar(c)
    ensures c !in Escape(s)
    decreases |s|
  {
    if s != [] {
      assert c != s[0];
      assert forall k :: 0 <= k < |EscapeChar(s[0])| ==> EscapeChar(s[0])[k] != c;
      assert c !in s[1..];
      EscapeIntroducesOnlyEntityChars(s[1..], c);
    }
  }

  /** Escaping keeps text free of surrounding whitespace: an escaped character
      begins with itself or `&` and ends with itself or `;`. */
  lemma EscapeKeepsStripped(s: string)
    requires IsStripped(s)
    ensures IsStripped(Escape(s))
  {
    if s != [] {
      var n := |s| - 1;
      assert s == s[..n] + [s[n]];
      EscapeAppend(s[..n], [s[n]]);
      EscapeOne(s[n]);
      EscapeEnds(s[0], Escape(s[1..]));
      EscapeEnds(s[n], []);
      var e := Escape(s);
      var l := EscapeChar(s[n]);
      assert e == Escape(s[..n]) + l;
      assert e[|e| - 1] == l[|l| - 1];
      assert e == EscapeChar(s[0]) + Escape(s[1..]);
      EndsNotSpace(s, e);
    }
  }

  lemma EndsNotSpace(s: string, e: string)
    requires IsStripped(s) && s != [] && e != []
    requires e[0] == s[0] || e[0] == '&'
    requires e[|e| - 1] == s[|s| - 1] || e[|e| - 1] == ';'
    ensures IsStripped(e)
  {
    assert !IsSpace('&') && !IsSpace(';');
  }

  lemma EscapeOne(c: char)
    ensures Escape([c]) == EscapeChar(c)
  {
    assert [c][1..] == [];
  }

  /** A replacement starts with its character or `&` and ends with its
      character or `;`, neither of them whitespace when the character is not. */
  lemma EscapeEnds(c: char, e: string)
    ensures var x := EscapeChar(c) + e;
      && x != []
      && (x[0] == c || x[0] == '&')
    ensures var x := EscapeChar(c);
      x[|x| - 1] == c || x[|x| - 1] == ';'
  {
  }

  /** Decodes the five entities `Escape` produces; every other character,
      including an `&` that starts none of them, is kept as it is. */
  function Unescape(s: string): string
    decreases |s|
  {
    if s == [] then []
    else if StartsWith(s, "&amp;") then "&" + Unescape(s[5..])
    else if StartsWith(s, "&lt;") then "<" + Unescape(s[4..])
    else if StartsWith(s, "&gt;") then ">" + Unescape(s[4..])
    else if StartsWith(s, "&quot;") then "\"" + Unescape(s[6..])
    else if StartsWith(s, "&#x27;") then "'" + Unescape(s[6..])
    else [s[0]] + Unescape(s[1..])
  }

  /** Decoding inverts escaping, so escaped text loses nothing. */
  lemma {:induction false} UnescapeEscape(s: string)
    ensures Unescape(Escape(s)) == s
    decreases |s|
  {
    if s != [] {
      UnescapeEscape(s[1..]);
      UnescapeStep(s[0], Escape(s[1..]));
      assert Escape(s) == EscapeChar(s[0]) + Escape(s[1..]);
      assert s == [s[0]] + s[1..];
    }
  }

  lemma UnescapeStep(c: char, e: string)
    ensures Unescape(EscapeChar(c) + e) == [c] + Unescape(e)
  {
    if IsSpecial(c) {
      UnescapeEntity(c, e);
    } else {
      UnescapePlain(c, e);
    }
  }

  /** The entity of a special character decodes back to it. */
  lemma UnescapeEntity(c: char, e: string)
    requires IsSpecial(c)
    ensures Unescape(EscapeChar(c) + e) == [c] + Unescape(e)
  {
    var x := EscapeChar(c) + e;
    if c == '&' {
      assert StartsWith(x, "&amp;");
      assert x[5..] == e;
    } else if c == '<' {
      DiffersAt(x, "&amp;", 1);
      assert StartsWith(x, "&lt;");
      assert x[4..] == e;
    } else if c == '>' {
      DiffersAt(x, "&amp;", 1);
      DiffersAt(x, "&lt;", 1);
      assert StartsWith(x, "&gt;");
      assert x[4..] == e;
    } else if c == '"' {
      DiffersAt(x, "&amp;", 1);
      DiffersAt(x, "&lt;", 1);
      DiffersAt(x, "&gt;", 1);
      assert StartsWith(x, "&quot;");
      assert x[6..] == e;
    } else {
      DiffersAt(x, "&amp;", 1);
      DiffersAt(x, "&lt;", 1);
      DiffersAt(x, "&gt;", 1);
      DiffersAt(x, "&quot;", 1);
      assert StartsWith(x, "&#x27;");
      assert x[6..] == e;
    }
  }

  /** Any other character is kept, and is not the start of an entity. */
  lemma UnescapePlain(c: char, e: string)
    requires !IsSpecial(c)
    ensures Unescape(EscapeChar(c) + e) == [c] + Unescape(e)
  {
    var x := [c] + e;
    assert EscapeChar(c) == [c];
    assert x[0] == c && x[1..] == e;
    DiffersAt(x, "&amp;", 0);
    DiffersAt(x, "&lt;", 0);
    DiffersAt(x, "&gt;", 0);
    DiffersAt(x, "&quot;", 0);
    DiffersAt(x, "&#x27;", 0);
  }

  /** Escaping is one-to-one: distinct texts never render alike. */
  lemma EscapeInjective(a: string, b: string)
    requires Escape(a) == Escape(b)
    ensures a == b
  {
    UnescapeEscape(a);
    UnescapeEscape(b);
  }
}
