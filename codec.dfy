/**
 * The link codec: share links `<page>#quiz=<token>` and result links `<page>#result=<token>`,
 * where a token is `encodeURIComponent(btoa(JSON.stringify(payload)))`, and the tolerant
 * decoder that tries five repairs of a pasted token in turn.
 *
 * `atob`, `btoa`, `JSON.parse`, `JSON.stringify`, `encodeURIComponent` and
 * `decodeURIComponent` are browser built-ins: they enter as function parameters, with
 * `None` standing for a thrown exception (and, for `JSON.parse`, for a falsy value).
 */
module LinkCodec {
  import opened Wrappers
  import opened Text
  import opened Quiz
  import opened PayloadExtraction

  const QuizMarker: string := "#quiz="

  /* ---------------- fixUrlSafeBase64 ---------------- */

  /** RFC 4648 section 5 (URL-safe) characters mapped back to the section 4 alphabet. */
  function UrlSafeToStandard(c: char): char {
    if c == '-' then '+' else if c == '_' then '/' else c
  }

  function StandardToUrlSafe(c: char): char {
    if c == '+' then '-' else if c == '/' then '_' else c
  }

  /** The `=` characters appended for a string of length `n`. */
  function Padding(n: nat): string {
    var pad := n % 4;
    if pad == 2 then "==" else if pad == 3 then "=" else if pad == 1 then "===" else ""
  }

  /**
   * `fixUrlSafeBase64(s)`: `-` and `_` become `+` and `/`, then `=` is appended up to a
   * multiple of four characters.
   */
  function FixUrlSafeBase64(s: string): (r: string)
    ensures |r| % 4 == 0
    ensures '-' !in r && '_' !in r
    ensures |s| <= |r| && |r| - |s| == (4 - |s| % 4) % 4
    ensures forall i :: 0 <= i < |s| ==> r[i] == UrlSafeToStandard(s[i])
    ensures forall i :: |s| <= i < |r| ==> r[i] == '='
  {
    var str := seq(|s|, i requires 0 <= i < |s| => UrlSafeToStandard(s[i]));
    str + Padding(|str|)
  }

  /** A second repair changes nothing. */
  lemma FixUrlSafeBase64Idempotent(s: string)
    ensures FixUrlSafeBase64(FixUrlSafeBase64(s)) == FixUrlSafeBase64(s)
  {
    var r := FixUrlSafeBase64(s);
    var rr := FixUrlSafeBase64(r);
    assert |rr| == |r|;
    forall i | 0 <= i < |r|
      ensures rr[i] == r[i]
    {
      assert r[i] != '-' && r[i] != '_';
    }
  }

  predicate IsBase64Char(c: char) {
    ('A' <= c <= 'Z') || ('a' <= c <= 'z') || ('0' <= c <= '9') || c == '+' || c == '/'
  }

  /** Number of `=` characters at the end of `t`. */
  function TrailingPad(t: string): (k: nat)
    ensures k <= |t|
    ensures forall i :: |t| - k <= i < |t| ==> t[i] == '='
    ensures k < |t| ==> t[|t| - k - 1] != '='
  {
    if t != [] && t[|t| - 1] == '=' then TrailingPad(t[..|t| - 1]) + 1 else 0
  }

  /** What `btoa` produces: RFC 4648 section 4 alphabet, padded to a multiple of four with at most two `=`. */
  predicate IsCanonicalBase64(t: string) {
    |t| % 4 == 0 && TrailingPad(t) <= 2 &&
    forall i :: 0 <= i < |t| - TrailingPad(t) ==> IsBase64Char(t[i])
  }

  /** The padding removed, as some chat programs and QR encoders do. */
  function StripPadding(t: string): string {
    t[..|t| - TrailingPad(t)]
  }

  /** `+` and `/` written as `-` and `_`, as in RFC 4648 section 5. */
  function ToUrlSafe(t: string): (r: string)
    ensures |r| == |t| && forall i :: 0 <= i < |t| ==> r[i] == StandardToUrlSafe(t[i])
  {
    seq(|t|, i requires 0 <= i < |t| => StandardToUrlSafe(t[i]))
  }

  /**
   * The repair undoes both corruptions: a canonical token, stripped of its padding
   * and/or rewritten in the URL-safe alphabet, is restored exactly.
   */
  lemma FixRepairsCorruption(t: string)
    requires IsCanonicalBase64(t)
    ensures FixUrlSafeBase64(t) == t
    ensures FixUrlSafeBase64(StripPadding(t)) == t
    ensures FixUrlSafeBase64(ToUrlSafe(t)) == t
    ensures FixUrlSafeBase64(ToUrlSafe(StripPadding(t))) == t
  {
    var body := StripPadding(t);
    CanonicalCharsSurvive(t);
    RepairRestores(t, t);
    RepairRestores(t, body);
    RepairRestores(t, ToUrlSafe(t));
    RepairRestores(t, ToUrlSafe(body));
  }

  /** Every character of canonical base64, and its URL-safe spelling, maps back to itself. */
  lemma CanonicalCharsSurvive(t: string)
    requires IsCanonicalBase64(t)
    ensures forall i :: 0 <= i < |t| ==> UrlSafeToStandard(t[i]) == t[i]
    ensures forall i :: 0 <= i < |t| ==> UrlSafeToStandard(StandardToUrlSafe(t[i])) == t[i]
  {
    forall i | 0 <= i < |t|
      ensures t[i] != '-' && t[i] != '_'
    {
      if i >= |t| - TrailingPad(t) {
        assert t[i] == '=';
      } else {
        assert IsBase64Char(t[i]);
      }
    }
  }

  /** A multiple of four, less at most two characters, is padded back to its length. */
  lemma PaddedLength(m: nat, n: nat, k: nat)
    requires n % 4 == 0 && k <= 2 && k <= n
    requires m == n || m == n - k
    ensures m + (4 - m % 4) % 4 == n
  {
    var q := n / 4;
    assert n == 4 * q;
    if m == n - 1 {
      assert m == 4 * (q - 1) + 3;
    } else if m == n - 2 {
      assert m == 4 * (q - 1) + 2;
    }
  }

  /** The repaired text is as long as the canonical one. */
  lemma RepairLength(t: string, c: string)
    requires |t| % 4 == 0 && TrailingPad(t) <= 2
    requires |c| == |t| || |c| == |t| - TrailingPad(t)
    ensures |FixUrlSafeBase64(c)| == |t|
  {
    PaddedLength(|c|, |t|, TrailingPad(t));
  }

  lemma RepairRestores(t: string, c: string)
    requires IsCanonicalBase64(t)
    requires |c| == |t| || |c| == |t| - TrailingPad(t)
    requires forall i :: 0 <= i < |c| ==> UrlSafeToStandard(c[i]) == t[i]
    ensures FixUrlSafeBase64(c) == t
  {
    var r := FixUrlSafeBase64(c);
    RepairLength(t, c);
    forall i | 0 <= i < |t|
      ensures r[i] == t[i]
    {
      if i >= |c| {
        assert i >= |t| - TrailingPad(t);
      }
    }
  }

  /* ---------------- tryDecodeBase64ToJson ---------------- */

  /** The browser built-ins a decoder needs; `J` is the parsed JSON object. */
  datatype Decoders<J> = Decoders(
    atob: string -> Option<string>,
    decodeUri: string -> Option<string>,
    parse: string -> Option<J>)

  /** The five repairs, in the order the source tries them. */
  datatype Strategy = Raw | UrlDecoded | SpacesStripped | UrlSafeFixed | UrlDecodedThenFixed

  const Strategies: seq<Strategy> := [Raw, UrlDecoded, SpacesStripped, UrlSafeFixed, UrlDecodedThenFixed]

  /** `JSON.parse(atob(...))` of the repaired token, `None` where any step throws. */
  function Attempt<J>(d: Decoders<J>, st: Strategy, p: string): Option<J> {
    var repaired :=
      match st
      case Raw => Some(p)
      case UrlDecoded => d.decodeUri(p)
      case SpacesStripped => Some(RemoveSpaces(p))
      case UrlSafeFixed => Some(FixUrlSafeBase64(p))
      case UrlDecodedThenFixed =>
        (match d.decodeUri(p) case Some(u) => Some(FixUrlSafeBase64(u)) case None => None);
    match repaired
    case None => None
    case Some(text) =>
      match d.atob(text)
      case None => None
      case Some(json) => d.parse(json)
  }

  /** Index of the first of `Strategies[from..]` that yields a value. */
  function FirstSuccessFrom<J>(d: Decoders<J>, p: string, from: nat): (r: Option<nat>)
    ensures r.Some? ==> from <= r.value < |Strategies| && Attempt(d, Strategies[r.value], p).Some?
    ensures r.Some? ==> forall j :: from <= j < r.value ==> Attempt(d, Strategies[j], p).None?
    ensures r.None? ==> forall j :: from <= j < |Strategies| ==> Attempt(d, Strategies[j], p).None?
    decreases |Strategies| - from
  {
    if from >= |Strategies| then None
    else if Attempt(d, Strategies[from], p).Some? then Some(from)
    else FirstSuccessFrom(d, p, from + 1)
  }

  /**
   * `tryDecodeBase64ToJson(payload)`: nothing for an empty payload, otherwise the value of
   * the first strategy that yields one, and nothing when none does.
   */
  function TryDecode<J>(d: Decoders<J>, p: string): (r: Option<J>)
    ensures p == [] ==> r.None?
    ensures r.None? <==> p == [] || forall k :: 0 <= k < |Strategies| ==> Attempt(d, Strategies[k], p).None?
  {
    if p == [] then None
    else
      match FirstSuccessFrom(d, p, 0)
      case Some(k) => Attempt(d, Strategies[k], p)
      case None => None
  }

  /** The first strategy that yields a value decides the result. */
  lemma TryDecodeIsFirstSuccess<J>(d: Decoders<J>, p: string, k: nat)
    requires p != [] && k < |Strategies|
    requires Attempt(d, Strategies[k], p).Some?
    requires forall j :: 0 <= j < k ==> Attempt(d, Strategies[j], p).None?
    ensures TryDecode(d, p) == Attempt(d, Strategies[k], p)
  {
    var r := FirstSuccessFrom(d, p, 0);
    assert r.Some?;
    assert r.value == k by {
      assert r.value >= k;
      assert !(r.value > k);
    }
  }

  /**
   * Corruption tolerance: if `atob` and `JSON.parse` accept a canonical token `t`, the same
   * token with its padding stripped and its alphabet made URL-safe still decodes (by the
   * fourth strategy at the latest), and to the original value when no earlier strategy
   * accepts the corrupted text.
   */
  lemma DecodesAfterUrlSafeCorruption<J>(d: Decoders<J>, t: string, json: string, v: J)
    requires t != [] && IsCanonicalBase64(t)
    requires d.atob(t) == Some(json) && d.parse(json) == Some(v)
    ensures TryDecode(d, ToUrlSafe(StripPadding(t))).Some?
    ensures (forall j :: 0 <= j < 3 ==> Attempt(d, Strategies[j], ToUrlSafe(StripPadding(t))).None?) ==>
      TryDecode(d, ToUrlSafe(StripPadding(t))) == Some(v)
  {
    var c := ToUrlSafe(StripPadding(t));
    CorruptedTokenNonEmpty(t);
    UrlSafeFixedRecovers(d, t, json, v);
    if forall j :: 0 <= j < 3 ==> Attempt(d, Strategies[j], c).None? {
      TryDecodeIsFirstSuccess(d, c, 3);
    }
  }

  lemma CorruptedTokenNonEmpty(t: string)
    requires t != [] && IsCanonicalBase64(t)
    ensures |ToUrlSafe(StripPadding(t))| > 0
  {
    assert |t| >= 4 && TrailingPad(t) <= 2;
  }

  lemma UrlSafeFixedRecovers<J>(d: Decoders<J>, t: string, json: string, v: J)
    requires IsCanonicalBase64(t)
    requires d.atob(t) == Some(json) && d.parse(json) == Some(v)
    ensures Attempt(d, Strategies[3], ToUrlSafe(StripPadding(t))) == Some(v)
  {
    FixRepairsCorruption(t);
    assert Strategies[3] == UrlSafeFixed;
  }

  /* ---------------- link assembly ---------------- */

  /** `href.split('#')[0] + marker + token` */
  function BuildLink(href: string, marker: string, token: string): string {
    Split(href, '#')[0] + marker + token
  }

  /** `joinQuiz`'s token recovery: everything after the first `#quiz=`. */
  function QuizTokenOf(input: string): (r: Option<string>)
    ensures r.Some? <==> Contains(input, QuizMarker)
  {
    match IndexOf(input, QuizMarker)
    case Some(i) => Some(input[i + |QuizMarker|..])
    case None => None
  }

  /** The page address before `#` holds no `#`, so the first marker is the one appended. */
  lemma FirstMarkerIsAppended(w: string, marker: string, token: string)
    requires '#' !in w && marker != [] && marker[0] == '#'
    ensures IndexOf(w + marker + token, marker) == Some(|w|)
  {
    var s := w + marker + token;
    assert s[|w|..|w| + |marker|] == marker;
    assert OccursAt(s, |w|, marker);
    forall q | 0 <= q < |w|
      ensures !OccursAt(s, q, marker)
    {
      MismatchAt(s, q, marker);
    }
  }

  lemma MismatchAt(s: string, q: nat, pat: string)
    requires pat != [] && q < |s| && s[q] != pat[0]
    ensures !OccursAt(s, q, pat)
  {
    if q + |pat| <= |s| {
      assert s[q..q + |pat|][0] == s[q];
    }
  }

  /** Round trip of the share link: the student recovers exactly the token the teacher appended. */
  lemma QuizLinkRoundTrip(href: string, token: string)
    ensures QuizTokenOf(BuildLink(href, QuizMarker, token)) == Some(token)
  {
    var w := Split(href, '#')[0];
    FirstMarkerIsAppended(w, QuizMarker, token);
    assert (w + QuizMarker + token)[|w| + 6..] == token;
  }

  /** Characters `encodeURIComponent` leaves in a base64 string (after `+`, `/`, `=` become `%XX`). */
  predicate IsUrlTokenChar(c: char) {
    ('A' <= c <= 'Z') || ('a' <= c <= 'z') || ('0' <= c <= '9') || c == '%'
  }

  /** Leading white space is removed from the page address only, never from the marker on. */
  lemma TrimStartOfPrefixed(w: string, rest: string) returns (k: nat)
    requires rest != [] && !IsSpace(rest[0])
    ensures k <= |w| && TrimStart(w + rest) == w[k..] + rest
    decreases |w|
  {
    if w == [] {
      assert w + rest == rest;
      k := 0;
    } else if IsSpace(w[0]) {
      assert (w + rest)[1..] == w[1..] + rest;
      var k' := TrimStartOfPrefixed(w[1..], rest);
      k := k' + 1;
      assert w[1..][k'..] == w[k..];
    } else {
      k := 0;
    }
  }

  /** The text the extractor searches, for a result link. */
  lemma UnwrapResultLink(w: string, token: string) returns (k: nat)
    requires token != [] && forall i :: 0 <= i < |token| ==> IsUrlTokenChar(token[i])
    ensures k <= |w| && Unwrap(w + ResultMarker + token) == w[k..] + ResultMarker + token
  {
    var rest := ResultMarker + token;
    assert rest[0] == '#';
    assert w + ResultMarker + token == w + rest;
    k := TrimStartOfPrefixed(w, rest);
    var ts := w[k..] + rest;
    var last := token[|token| - 1];
    assert ts[|ts| - 1] == last;
    assert !IsSpace(last) && last != '>' by {
      assert IsUrlTokenChar(last);
    }
    assert TrimEnd(ts) == ts;
    assert Trim(w + rest) == ts;
    assert w[k..] + ResultMarker + token == ts;
  }

  /** Round trip of the result link: pasting it back gives the token that was appended. */
  lemma ResultLinkRoundTrip(href: string, token: string)
    requires token != [] && forall i :: 0 <= i < |token| ==> IsUrlTokenChar(token[i])
    ensures ExtractResultPayload(BuildLink(href, ResultMarker, token)) == Some(token)
  {
    var w := Split(href, '#')[0];
    var link := w + ResultMarker + token;
    var k := UnwrapResultLink(w, token);
    var w' := w[k..];
    var u := w' + ResultMarker + token;
    var p := |w'|;
    assert '#' !in w' by {
      assert forall i :: 0 <= i < |w'| ==> w'[i] == w[k + i];
    }
    MarkerFoundAt(w', token);
    ExtractPrefersResultMarker(link, p);
  }

  lemma MarkerFoundAt(w: string, token: string)
    requires '#' !in w
    requires token != [] && forall i :: 0 <= i < |token| ==> IsUrlTokenChar(token[i])
    ensures IsLeftmostMatch(w + ResultMarker + token, |w|, MarkerThen(ResultRunChar))
    ensures Run(w + ResultMarker + token, |w| + 8, ResultRunChar) == token
  {
    var u := w + ResultMarker + token;
    var p := |w|;
    FirstMarkerIsAppended(w, ResultMarker, token);
    assert u[p + 8..] == token;
    assert MatchesAt(u, p, MarkerThen(ResultRunChar));
    RunToEnd(u, p + 8, ResultRunChar);
  }

  lemma RunToEnd(s: string, i: nat, k: CharClass)
    requires i <= |s| && forall j :: i <= j < |s| ==> InClass(s[j], k)
    ensures Run(s, i, k) == s[i..]
  {
  }

  /** `decodeResultFromUrl(text)` */
  function DecodeResultFromUrl<J>(d: Decoders<J>, text: string): Option<J> {
    match ExtractResultPayload(text)
    case Some(token) => TryDecode(d, token)
    case None => None
  }

  /** A generated result link decodes exactly as its token does. */
  lemma ResultLinkDecodes<J>(d: Decoders<J>, href: string, token: string)
    requires token != [] && forall i :: 0 <= i < |token| ==> IsUrlTokenChar(token[i])
    ensures DecodeResultFromUrl(d, BuildLink(href, ResultMarker, token)) == TryDecode(d, token)
  {
    ResultLinkRoundTrip(href, token);
  }

  /** The browser built-ins `generateResultUrl` uses. */
  datatype ResultEncoders = ResultEncoders(
    stringify: StudentResult -> string,
    btoa: string -> Option<string>,
    encodeUri: string -> string)

  /**
   * The link `generateResultUrl` shows for result `r`: none when `btoa` throws (the error
   * is caught and no link is shown).
   */
  function ResultLink(e: ResultEncoders, href: string, r: StudentResult): Option<string> {
    match e.btoa(e.stringify(r))
    case None => None
    case Some(b) => Some(BuildLink(href, ResultMarker, e.encodeUri(b)))
  }

  /**
   * End to end: whenever the teacher's decoders undo the student's encoders on this result,
   * pasting the student's result link gives back exactly the result. The token is `b`
   * URL-encoded; it is either `b` itself (no `+`, `/` or `=` to escape) and decodes as it
   * is, or `atob` refuses its `%` escapes and the URL-decoding repair recovers `b`.
   */
  lemma ResultLinkRecoversResult(d: Decoders<StudentResult>, e: ResultEncoders, href: string,
                                 r: StudentResult, b: string)
    requires e.btoa(e.stringify(r)) == Some(b)
    requires e.encodeUri(b) != [] && forall i :: 0 <= i < |e.encodeUri(b)| ==> IsUrlTokenChar(e.encodeUri(b)[i])
    requires d.decodeUri(e.encodeUri(b)) == Some(b)
    requires d.atob(b) == Some(e.stringify(r)) && d.parse(e.stringify(r)) == Some(r)
    requires e.encodeUri(b) == b || d.atob(e.encodeUri(b)) == None
    ensures ResultLink(e, href, r).Some?
    ensures DecodeResultFromUrl(d, ResultLink(e, href, r).value) == Some(r)
  {
    var token := e.encodeUri(b);
    ResultLinkDecodes(d, href, token);
    if token == b {
      assert Attempt(d, Strategies[0], token) == Some(r);
      TryDecodeIsFirstSuccess(d, token, 0);
    } else {
      assert Attempt(d, Strategies[0], token) == None;
      assert Attempt(d, Strategies[1], token) == Some(r);
      TryDecodeIsFirstSuccess(d, token, 1);
    }
  }

  /**
   * One level of URL encoding only: a token URL-encoded twice, whose once-decoded form
   * still holds `%` escapes, is refused by every repair when `atob` refuses `%`, so the
   * result link carrying it decodes to nothing.
   */
  lemma TwiceEncodedResultLinkFails<J>(d: Decoders<J>, href: string, once: string, twice: string)
    requires twice != [] && forall i :: 0 <= i < |twice| ==> IsUrlTokenChar(twice[i])
    requires d.decodeUri(twice) == Some(once)
    requires '%' in once && '%' in twice
    requires forall x :: '%' in x ==> d.atob(x) == None
    ensures DecodeResultFromUrl(d, BuildLink(href, ResultMarker, twice)) == None
  {
    ResultLinkDecodes(d, href, twice);
    TwiceEncodedTokenFails(d, once, twice);
  }

  lemma TwiceEncodedTokenFails<J>(d: Decoders<J>, once: string, twice: string)
    requires twice != []
    requires d.decodeUri(twice) == Some(once)
    requires '%' in once && '%' in twice
    requires forall x :: '%' in x ==> d.atob(x) == None
    ensures TryDecode(d, twice) == None
  {
    forall k | 0 <= k < |Strategies|
      ensures Attempt(d, Strategies[k], twice).None?
    {
      AttemptRefusesPercent(d, Strategies[k], once, twice);
    }
  }

  lemma AttemptRefusesPercent<J>(d: Decoders<J>, st: Strategy, once: string, twice: string)
    requires d.decodeUri(twice) == Some(once)
    requires '%' in once && '%' in twice
    requires forall x :: '%' in x ==> d.atob(x) == None
    ensures Attempt(d, st, twice).None?
  {
    match st
    case Raw =>
    case UrlDecoded =>
    case SpacesStripped => RemoveSpacesKeeps(twice, '%');
    case UrlSafeFixed => FixKeepsPercent(twice);
    case UrlDecodedThenFixed => FixKeepsPercent(once);
  }

  /** `fixUrlSafeBase64` leaves `%` where it is. */
  lemma FixKeepsPercent(s: string)
    requires '%' in s
    ensures '%' in FixUrlSafeBase64(s)
  {
    var i :| 0 <= i < |s| && s[i] == '%';
    assert FixUrlSafeBase64(s)[i] == '%';
  }

  /* ---------------- updateShareLink and joinQuiz ---------------- */

  /** The browser built-ins the teacher's side uses to make a link. */
  datatype Encoders = Encoders(
    stringify: QuizData -> string,
    btoa: string -> Option<string>,
    encodeUri: string -> string)

  /**
   * The link text `updateShareLink` shows: none ("Generating quiz link...") for an empty
   * question list or when `btoa` throws.
   */
  function ShareLink(e: Encoders, href: string, quizId: string, questions: seq<Question>): Option<string> {
    if |questions| == 0 then None
    else
      match e.btoa(e.stringify(QuizData(quizId, questions, "8.0")))
      case None => None
      case Some(b) => Some(BuildLink(href, QuizMarker, e.encodeUri(b)))
  }

  datatype JoinOutcome =
    | NameMissing
    | InputMissing
    | InvalidLink
    | Joined(studentName: string, quizId: string, questions: seq<Question>)

  /** `JSON.parse(atob(decodeURIComponent(token)))` */
  function DecodeQuizToken(d: Decoders<QuizData>, token: string): Option<QuizData> {
    match d.decodeUri(token)
    case None => None
    case Some(b) =>
      match d.atob(b)
      case None => None
      case Some(json) => d.parse(json)
  }

  /**
   * `joinQuiz` on the four input fields: the QR result wins over the pasted link; a bare
   * quiz code is turned into a link; a link with `#quiz=` is decoded from its token, a
   * longer bare text is tried as base64; a quiz with no questions is refused.
   * `fallbackId` is the `'quiz_' + Date.now()` used when the payload has no id.
   */
  function JoinQuiz(d: Decoders<QuizData>, encodeUri: string -> string, fallbackId: string,
                    nameField: string, joinField: string, qrField: string, codeField: string): (r: JoinOutcome)
    ensures r.Joined? ==> r.studentName != [] && |r.questions| > 0
    ensures Trim(nameField) == [] <==> r == NameMissing
  {
    var name := Trim(nameField);
    var joinInput := Trim(joinField);
    var qr := Trim(qrField);
    var code := Trim(codeField);
    if name == [] then NameMissing
    else
      var input := if qr != [] then qr else joinInput;
      if input == [] && code == [] then InputMissing
      else
        var link :=
          if input != [] then input
          else if Contains(code, QuizMarker) then "http://quiz/" + code
          else "http://quiz/#quiz=" + encodeUri(code);
        var data :=
          match QuizTokenOf(link)
          case Some(token) => DecodeQuizToken(d, token)
          case None =>
            if |link| > 20 then (match d.atob(link) case Some(json) => d.parse(json) case None => None)
            else None;
        match data
        case Some(q) =>
          if |q.questions| > 0 then Joined(name, if q.id != [] then q.id else fallbackId, q.questions)
          else InvalidLink
        case None => InvalidLink
  }

  /**
   * End to end: whenever the browser's decoders undo its encoders on this quiz, a student
   * who pastes the teacher's share link joins with exactly the teacher's questions and id.
   */
  lemma JoinQuizFromShareLink(d: Decoders<QuizData>, e: Encoders, fallbackId: string,
                              href: string, quizId: string, questions: seq<Question>,
                              nameField: string, link: string, b: string)
    requires Trim(nameField) != [] && quizId != []
    requires ShareLink(e, href, quizId, questions) == Some(link) && NoSpace(link)
    requires e.btoa(e.stringify(QuizData(quizId, questions, "8.0"))) == Some(b)
    requires d.decodeUri(e.encodeUri(b)) == Some(b)
    requires d.atob(b) == Some(e.stringify(QuizData(quizId, questions, "8.0")))
    requires d.parse(e.stringify(QuizData(quizId, questions, "8.0"))) == Some(QuizData(quizId, questions, "8.0"))
    ensures JoinQuiz(d, e.encodeUri, fallbackId, nameField, link, "", "") == Joined(Trim(nameField), quizId, questions)
  {
    TrimOfSpaceFree(link);
    QuizLinkRoundTrip(href, e.encodeUri(b));
    assert Trim("") == [];
  }
}
