/** The two display helpers of the quiz tool: `escapeHtml` and `formatTime`. */
module Format {
  import opened Text
  import opened Numbers

  /** `s.replace(/c/g, rep)` for a one-character pattern. */
  function ReplaceAll(s: string, c: char, rep: string): (r: string)
  {
    if s == [] then []
    else (if s[0] == c then rep else [s[0]]) + ReplaceAll(s[1..], c, rep)
  }

  lemma {:induction false} ReplaceAllAppend(a: string, b: string, c: char, rep: string)
    ensures ReplaceAll(a + b, c, rep) == ReplaceAll(a, c, rep) + ReplaceAll(b, c, rep)
  {
    if a != [] {
      assert (a + b)[1..] == a[1..] + b;
      ReplaceAllAppend(a[1..], b, c, rep);
    } else {
      assert a + b == b;
    }
  }

  /** `escapeHtml(s)`: `&`, then `<`, then `>` replaced by their entities, in that order. */
  function EscapeHtml(s: string): string {
    ReplaceAll(ReplaceAll(ReplaceAll(s, '&', "&amp;"), '<', "&lt;"), '>', "&gt;")
  }

  /** What one character becomes. */
  function EscapeChar(c: char): string {
    if c == '&' then "&amp;" else if c == '<' then "&lt;" else if c == '>' then "&gt;" else [c]
  }

  /** Reference definition: each character escaped independently. */
  function EscapeEach(s: string): string {
    if s == [] then [] else EscapeChar(s[0]) + EscapeEach(s[1..])
  }

  /**
   * The three successive passes equal a single per-character escape: the entities a
   * pass introduces are never rewritten by a later pass.
   */
  lemma {:induction false} EscapeHtmlIsPerCharacter(s: string)
    ensures EscapeHtml(s) == EscapeEach(s)
  {
    if s != [] {
      var c := s[0];
      assert s == [c] + s[1..];
      ReplaceAllAppend([c], s[1..], '&', "&amp;");
      var a1 := ReplaceAll([c], '&', "&amp;");
      var b1 := ReplaceAll(s[1..], '&', "&amp;");
      ReplaceAllAppend(a1, b1, '<', "&lt;");
      var a2 := ReplaceAll(a1, '<', "&lt;");
      var b2 := ReplaceAll(b1, '<', "&lt;");
      ReplaceAllAppend(a2, b2, '>', "&gt;");
      EscapeCharPasses(c);
      EscapeHtmlIsPerCharacter(s[1..]);
    }
  }

  /** The three passes turn one character into its entity, and no pass rewrites an earlier one's. */
  lemma EscapeCharPasses(c: char)
    ensures EscapeHtml([c]) == EscapeChar(c)
  {
    ReplaceAllSingle(c, '&', "&amp;");
    if c == '&' {
      ReplaceAllAbsent("&amp;", '<', "&lt;");
      ReplaceAllAbsent("&amp;", '>', "&gt;");
    } else {
      ReplaceAllSingle(c, '<', "&lt;");
      if c == '<' {
        ReplaceAllAbsent("&lt;", '>', "&gt;");
      } else {
        ReplaceAllSingle(c, '>', "&gt;");
      }
    }
  }

  lemma ReplaceAllSingle(c: char, x: char, rep: string)
    ensures ReplaceAll([c], x, rep) == if c == x then rep else [c]
  {
    assert [c][1..] == [];
  }

  /** Text without the character is left as it is. */
  lemma {:induction false} ReplaceAllAbsent(s: string, x: char, rep: string)
    requires x !in s
    ensures ReplaceAll(s, x, rep) == s
  {
    if s != [] {
      assert x !in s[1..];
      ReplaceAllAbsent(s[1..], x, rep);
    }
  }

  /** The escaped text holds no angle bracket, so it cannot open or close a tag. */
  lemma {:induction false} EscapedHasNoAngleBrackets(s: string)
    ensures '<' !in EscapeHtml(s) && '>' !in EscapeHtml(s)
  {
    EscapeHtmlIsPerCharacter(s);
    EscapeEachHasNoAngleBrackets(s);
  }

  lemma {:induction false} EscapeEachHasNoAngleBrackets(s: string)
    ensures '<' !in EscapeEach(s) && '>' !in EscapeEach(s)
  {
    if s != [] {
      EscapeEachHasNoAngleBrackets(s[1..]);
    }
  }

  /** Decodes the three entities `escapeHtml` produces; any other text is kept. */
  function UnescapeHtml(s: string): string {
    if s == [] then []
    else if OccursAt(s, 0, "&amp;") then ['&'] + UnescapeHtml(s[5..])
    else if OccursAt(s, 0, "&lt;") then ['<'] + UnescapeHtml(s[4..])
    else if OccursAt(s, 0, "&gt;") then ['>'] + UnescapeHtml(s[4..])
    else [s[0]] + UnescapeHtml(s[1..])
  }

  lemma MismatchMeansNoOccurrence(s: string, pat: string, k: nat)
    requires k < |pat| && k < |s| && s[k] != pat[k]
    ensures !OccursAt(s, 0, pat)
  {
    if |pat| <= |s| {
      assert s[..|pat|][k] == s[k];
    }
  }

  /** Escaping loses nothing: unescaping gives the original text back. */
  lemma {:induction false} EscapeHtmlRoundTrip(s: string)
    ensures UnescapeHtml(EscapeHtml(s)) == s
  {
    EscapeHtmlIsPerCharacter(s);
    EscapeEachRoundTrip(s);
  }

  lemma {:induction false} EscapeEachRoundTrip(s: string)
    ensures UnescapeHtml(EscapeEach(s)) == s
  {
    if s != [] {
      assert EscapeEach(s) == EscapeChar(s[0]) + EscapeEach(s[1..]);
      UnescapeFront(s[0], EscapeEach(s[1..]));
      EscapeEachRoundTrip(s[1..]);
      assert s == [s[0]] + s[1..];
    }
  }

  /** Unescaping reads an escaped character back off the front of the text. */
  lemma UnescapeFront(c: char, rest: string)
    ensures UnescapeHtml(EscapeChar(c) + rest) == [c] + UnescapeHtml(rest)
  {
    if c == '&' {
      UnescapeEntity("&amp;", '&', rest);
    } else if c == '<' {
      UnescapeEntity("&lt;", '<', rest);
    } else if c == '>' {
      UnescapeEntity("&gt;", '>', rest);
    } else {
      var e := [c] + rest;
      assert e[0] == c && e[1..] == rest;
      assert !OccursAt(e, 0, "&amp;") && !OccursAt(e, 0, "&lt;") && !OccursAt(e, 0, "&gt;");
    }
  }

  /** Each of the three entities is read back as its character. */
  lemma UnescapeEntity(ent: string, c: char, rest: string)
    requires (ent, c) in {("&amp;", '&'), ("&lt;", '<'), ("&gt;", '>')}
    ensures UnescapeHtml(ent + rest) == [c] + UnescapeHtml(rest)
  {
    var e := ent + rest;
    assert e[..|ent|] == ent && e[|ent|..] == rest;
    if c != '&' {
      assert e[1] != 'a';
      MismatchMeansNoOccurrence(e, "&amp;", 1);
    }
    if c == '>' {
      MismatchMeansNoOccurrence(e, "&lt;", 1);
    }
  }

  /**
   * `formatTime(seconds)`: minutes and seconds, each padded to two digits, around a colon.
   * Callers pass a remaining time of at least one second, so `seconds` is a `nat` here.
   */
  function FormatTime(seconds: nat): (r: string)
    ensures seconds < 6000 ==> |r| == 5 && r[2] == ':'
  {
    PadStart2(NatToDecimal(seconds / 60)) + ":" + PadStart2(NatToDecimal(seconds % 60))
  }

  lemma PaddedHasNoColon(n: nat)
    ensures ':' !in PadStart2(NatToDecimal(n))
  {
    var d := NatToDecimal(n);
    var p := PadStart2(d);
    var off := |p| - |d|;
    assert p[off..] == d;
    forall i | 0 <= i < |p|
      ensures IsDecimalDigit(p[i])
    {
      if i >= off {
        assert p[i] == d[i - off];
        assert IsDigitOf(d[i - off], false);
      }
    }
  }

  /** Reading the clock text back gives the seconds it was made from. */
  lemma FormatTimeRoundTrip(seconds: nat)
    ensures |Split(FormatTime(seconds), ':')| == 2
    ensures var parts := Split(FormatTime(seconds), ':');
      60 * ParseIntOrZero(parts[0]) + ParseIntOrZero(parts[1]) == seconds
  {
    var m := PadStart2(NatToDecimal(seconds / 60));
    var s := PadStart2(NatToDecimal(seconds % 60));
    PaddedHasNoColon(seconds / 60);
    PaddedHasNoColon(seconds % 60);
    assert FormatTime(seconds) == m + [':'] + s;
    SplitTwo(m, ':', s);
    ParseIntOfPadded(seconds / 60);
    ParseIntOfPadded(seconds % 60);
  }
}
