/**
 * `extractResultPayloadFromText`: pulls the encoded result token out of whatever a
 * teacher pasted (a bare link, a link in angle brackets, an HTML anchor, or a bare token).
 * Each regular expression of the source is a `Pattern` here; `FirstMatch` finds the
 * leftmost position where it matches and `Captured` is its (greedy, so maximal) group.
 */
module PayloadExtraction {
  import opened Wrappers
  import opened Text

  const ResultMarker: string := "#result="

  /** The character classes of the source's four regular expressions. */
  datatype CharClass =
    | ResultRunChar  // [^"'<>\s]  after "#result=" in the pasted text
    | HrefValueChar  // [^"']      inside href="..."
    | HrefRunChar    // [^"&\s]    after "#result=" inside the href value
    | TokenChar      // [A-Za-z0-9\-_=%]

  predicate IsQuote(c: char) {
    c == '"' || c == '\''
  }

  predicate InClass(c: char, k: CharClass) {
    match k
    case ResultRunChar => !IsQuote(c) && c != '<' && c != '>' && !IsSpace(c)
    case HrefValueChar => !IsQuote(c)
    case HrefRunChar => c != '"' && c != '&' && !IsSpace(c)
    case TokenChar =>
      ('A' <= c <= 'Z') || ('a' <= c <= 'z') || ('0' <= c <= '9') || c == '-' || c == '_' || c == '=' || c == '%'
  }

  /** `t` is the longest run of class-`k` characters starting at `i` in `s`. */
  predicate IsMaximalRun(s: string, i: nat, k: CharClass, t: string) {
    i + |t| <= |s| && s[i..i + |t|] == t &&
    (forall j :: 0 <= j < |t| ==> InClass(t[j], k)) &&
    (i + |t| < |s| ==> !InClass(s[i + |t|], k))
  }

  function RunLength(s: string, i: nat, k: CharClass): (n: nat)
    requires i <= |s|
    ensures i + n <= |s|
    ensures forall j :: i <= j < i + n ==> InClass(s[j], k)
    ensures i + n < |s| ==> !InClass(s[i + n], k)
    decreases |s| - i
  {
    if i == |s| || !InClass(s[i], k) then 0 else 1 + RunLength(s, i + 1, k)
  }

  function Run(s: string, i: nat, k: CharClass): (t: string)
    requires i <= |s|
    ensures IsMaximalRun(s, i, k, t)
  {
    s[i..i + RunLength(s, i, k)]
  }

  datatype Pattern =
    | MarkerThen(k: CharClass)  // /#result=([k]+)/
    | HrefAttribute             // /href=["']([^"']+)["']/
    | TokenRun                  // /([A-Za-z0-9\-_=%]{8,})/

  /** The pattern's regular expression has a match starting at `p`. */
  predicate MatchesAt(s: string, p: nat, pat: Pattern) {
    match pat
    case MarkerThen(k) =>
      OccursAt(s, p, ResultMarker) && p + 8 < |s| && InClass(s[p + 8], k)
    case HrefAttribute =>
      OccursAt(s, p, "href=") && p + 6 < |s| && IsQuote(s[p + 5]) && InClass(s[p + 6], HrefValueChar) &&
      p + 6 + RunLength(s, p + 6, HrefValueChar) < |s|
    case TokenRun =>
      p <= |s| && RunLength(s, p, TokenChar) >= 8
  }

  predicate IsLeftmostMatch(s: string, p: nat, pat: Pattern) {
    MatchesAt(s, p, pat) && forall q :: 0 <= q < p ==> !MatchesAt(s, q, pat)
  }

  predicate NoMatch(s: string, pat: Pattern) {
    forall q :: 0 <= q <= |s| ==> !MatchesAt(s, q, pat)
  }

  /** The leftmost match at or after `from`. */
  function FirstMatchFrom(s: string, pat: Pattern, from: nat): (r: Option<nat>)
    ensures r.Some? ==> from <= r.value && MatchesAt(s, r.value, pat)
    ensures r.Some? ==> forall q :: from <= q < r.value ==> !MatchesAt(s, q, pat)
    ensures r.None? ==> forall q :: from <= q <= |s| ==> !MatchesAt(s, q, pat)
    decreases |s| + 1 - from
  {
    if from > |s| then None
    else if MatchesAt(s, from, pat) then Some(from)
    else FirstMatchFrom(s, pat, from + 1)
  }

  function ClassOf(pat: Pattern): CharClass {
    match pat
    case MarkerThen(k) => k
    case HrefAttribute => HrefValueChar
    case TokenRun => TokenChar
  }

  /** The group the pattern captures when it matches at `p`. */
  function Captured(s: string, p: nat, pat: Pattern): (t: string)
    requires MatchesAt(s, p, pat)
    ensures t != []
    ensures forall j :: 0 <= j < |t| ==> InClass(t[j], ClassOf(pat))
  {
    match pat
    case MarkerThen(k) => Run(s, p + 8, k)
    case HrefAttribute => Run(s, p + 6, HrefValueChar)
    case TokenRun => Run(s, p, TokenChar)
  }

  /** `s.match(re)` followed by `m[1]`. */
  function Search(s: string, pat: Pattern): (r: Option<string>)
    ensures r.None? <==> NoMatch(s, pat)
    ensures r.Some? ==> r.value != [] && forall j :: 0 <= j < |r.value| ==> InClass(r.value[j], ClassOf(pat))
    ensures forall p: nat :: IsLeftmostMatch(s, p, pat) ==> r == Some(Captured(s, p, pat))
  {
    match FirstMatchFrom(s, pat, 0)
    case Some(p) =>
      assert forall q: nat :: IsLeftmostMatch(s, q, pat) ==> q == p;
      Some(Captured(s, p, pat))
    case None => None
  }

  /** Trimmed text, with one enclosing `<...>` pair and the white space inside it removed. */
  function Unwrap(text: string): string {
    var t := Trim(text);
    if t != [] && t[0] == '<' && t[|t| - 1] == '>' then Trim(t[1..|t| - 1]) else t
  }

  /** The `#result=` run inside the first `href="..."` value, if any. */
  function HrefPayload(u: string): Option<string> {
    match Search(u, HrefAttribute)
    case Some(v) => Search(v, MarkerThen(HrefRunChar))
    case None => None
  }

  /** The source's three-level extraction. */
  function ExtractResultPayload(text: string): (r: Option<string>)
    ensures text == [] ==> r.None?
    ensures r.Some? ==> r.value != []
    ensures r.Some? ==> forall j :: 0 <= j < |r.value| ==> !IsSpace(r.value[j]) && r.value[j] != '"'
  {
    if text == [] then None
    else
      var u := Unwrap(text);
      match Search(u, MarkerThen(ResultRunChar))
      case Some(t) => Some(t)
      case None =>
        match HrefPayload(u)
        case Some(t) => Some(t)
        case None => Search(u, TokenRun)
  }

  /** First choice: the maximal run after the leftmost `#result=` in the unwrapped text. */
  lemma ExtractPrefersResultMarker(text: string, p: nat)
    requires text != [] && IsLeftmostMatch(Unwrap(text), p, MarkerThen(ResultRunChar))
    ensures ExtractResultPayload(text) == Some(Run(Unwrap(text), p + 8, ResultRunChar))
  {
  }

  /** Second choice: the `#result=` run inside the first `href="..."` value. */
  lemma ExtractFallsBackToHref(text: string, p: nat, q: nat)
    requires text != [] && NoMatch(Unwrap(text), MarkerThen(ResultRunChar))
    requires IsLeftmostMatch(Unwrap(text), p, HrefAttribute)
    requires IsLeftmostMatch(Run(Unwrap(text), p + 6, HrefValueChar), q, MarkerThen(HrefRunChar))
    ensures ExtractResultPayload(text) ==
      Some(Run(Run(Unwrap(text), p + 6, HrefValueChar), q + 8, HrefRunChar))
  {
  }

  /** Neither `#result=` form yields a token. */
  ghost predicate NoMarkedPayload(u: string) {
    NoMatch(u, MarkerThen(ResultRunChar)) &&
    forall p: nat :: IsLeftmostMatch(u, p, HrefAttribute) ==>
      NoMatch(Run(u, p + 6, HrefValueChar), MarkerThen(HrefRunChar))
  }

  /** Third choice: the leftmost run of eight or more token characters. */
  lemma ExtractFallsBackToToken(text: string, p: nat)
    requires text != [] && NoMarkedPayload(Unwrap(text))
    requires IsLeftmostMatch(Unwrap(text), p, TokenRun)
    ensures ExtractResultPayload(text) == Some(Run(Unwrap(text), p, TokenChar))
  {
    HrefPayloadNone(Unwrap(text));
  }

  lemma HrefPayloadNone(u: string)
    requires NoMarkedPayload(u)
    ensures HrefPayload(u).None?
  {
    match FirstMatchFrom(u, HrefAttribute, 0)
    case Some(p) =>
      assert IsLeftmostMatch(u, p, HrefAttribute);
    case None =>
  }

  /** Nothing is extracted exactly when the text is empty or none of the three levels matches. */
  lemma ExtractNoneIff(text: string)
    ensures ExtractResultPayload(text).None? <==>
      text == [] || (NoMarkedPayload(Unwrap(text)) && NoMatch(Unwrap(text), TokenRun))
  {
    if text != [] {
      var u := Unwrap(text);
      if NoMarkedPayload(u) {
        HrefPayloadNone(u);
      } else if NoMatch(u, MarkerThen(ResultRunChar)) {
        var p: nat :| IsLeftmostMatch(u, p, HrefAttribute) &&
          !NoMatch(Run(u, p + 6, HrefValueChar), MarkerThen(HrefRunChar));
        assert HrefPayload(u).Some?;
      }
    }
  }
}
