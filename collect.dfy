/**
 * The teacher's result collection (`collectResults`): the pasted text is cleaned, split into
 * links on line breaks, commas and semicolons, every link is decoded, and each accepted result
 * is upserted into the collected list, keyed by student name and quiz id.
 */
module Collect {
  import opened Wrappers
  import opened Text
  import opened Quiz
  import opened LinkCodec

  /* ---------------- cleaning and splitting the pasted text ---------------- */

  /** The characters `/[\u200B-\u200D\uFEFF]/g` deletes. */
  predicate IsZeroWidth(c: char) {
    ('\U{200B}' <= c <= '\U{200D}') || c == '\U{FEFF}'
  }

  /** `s.replace(/[\u200B-\u200D\uFEFF]/g, '')` */
  function RemoveZeroWidth(s: string): (r: string)
    ensures |r| <= |s|
    ensures forall i :: 0 <= i < |r| ==> !IsZeroWidth(r[i])
  {
    if s == [] then []
    else if IsZeroWidth(s[0]) then RemoveZeroWidth(s[1..])
    else [s[0]] + RemoveZeroWidth(s[1..])
  }

  /** Text without zero-width characters passes through unchanged. */
  lemma {:induction false} RemoveZeroWidthOfClean(s: string)
    requires forall i :: 0 <= i < |s| ==> !IsZeroWidth(s[i])
    ensures RemoveZeroWidth(s) == s
  {
    if s != [] {
      RemoveZeroWidthOfClean(s[1..]);
    }
  }

  /** The pasted text after `trim()`, the zero-width deletion and `trim()` again. */
  function Cleaned(raw: string): (r: string)
    ensures IsTrimmed(r)
  {
    Trim(RemoveZeroWidth(Trim(raw)))
  }

  /** Length of the match of `/\r?\n|,|;/` starting at `i`; 0 when none starts there. */
  function SepAt(s: string, i: nat): (n: nat)
    requires i < |s|
    ensures n <= 2 && i + n <= |s|
    ensures n == 0 <==> s[i] != ',' && s[i] != ';' && s[i] != '\n' && !(s[i] == '\r' && i + 1 < |s| && s[i + 1] == '\n')
  {
    if s[i] == ',' || s[i] == ';' || s[i] == '\n' then 1
    else if s[i] == '\r' && i + 1 < |s| && s[i + 1] == '\n' then 2
    else 0
  }

  /** The leftmost position at or after `from` where a separator match starts, or `|s|`. */
  function NextSep(s: string, from: nat): (i: nat)
    requires from <= |s|
    ensures from <= i <= |s|
    ensures i < |s| ==> SepAt(s, i) > 0
    ensures forall k :: from <= k < i ==> SepAt(s, k) == 0
    decreases |s| - from
  {
    if from == |s| then from
    else if SepAt(s, from) > 0 then from
    else NextSep(s, from + 1)
  }

  /** `c` is one of the characters that always separate links. */
  predicate IsLinkSep(c: char) {
    c == ',' || c == ';' || c == '\n'
  }

  /** Where no separator match starts, no separator character stands. */
  lemma NoSepMatchNoSepChar(s: string, i: nat)
    requires i <= |s|
    requires forall k :: 0 <= k < i ==> SepAt(s, k) == 0
    ensures forall k :: 0 <= k < i ==> !IsLinkSep(s[k])
  {
    forall k | 0 <= k < i
      ensures !IsLinkSep(s[k])
    {
      assert SepAt(s, k) == 0;
    }
  }

  /** `s.split(/\r?\n|,|;/)`: at least one part, and no part holds a separator character. */
  function SplitLinks(s: string): (parts: seq<string>)
    ensures |parts| >= 1
    ensures forall k, i :: 0 <= k < |parts| && 0 <= i < |parts[k]| ==> !IsLinkSep(parts[k][i])
    decreases |s|
  {
    var i := NextSep(s, 0);
    if i == |s| then
      NoSepMatchNoSepChar(s, |s|);
      [s]
    else
      var rest := SplitLinks(s[i + SepAt(s, i)..]);
      var first := s[..i];
      NoSepMatchNoSepChar(s, i);
      assert forall k :: 0 <= k < i ==> first[k] == s[k];
      [first] + rest
  }

  /** `parts.map(s => s.trim()).filter(Boolean)` */
  function TrimmedNonEmpty(parts: seq<string>): (r: seq<string>)
    ensures |r| <= |parts|
    ensures forall k :: 0 <= k < |r| ==> r[k] != [] && IsTrimmed(r[k])
  {
    if parts == [] then []
    else
      var t := Trim(parts[0]);
      (if t == [] then [] else [t]) + TrimmedNonEmpty(parts[1..])
  }

  /** The links found in the pasted text. */
  function Links(raw: string): seq<string> {
    TrimmedNonEmpty(SplitLinks(Cleaned(raw)))
  }

  /** A link as a teacher would paste it: non-empty, trimmed, no separator, no zero-width character. */
  predicate IsPastedLink(l: string) {
    l != [] && IsTrimmed(l) && forall i :: 0 <= i < |l| ==> !IsLinkSep(l[i]) && !IsZeroWidth(l[i])
  }

  lemma {:induction false} TrimmedNonEmptyOfLinks(ls: seq<string>)
    requires forall k :: 0 <= k < |ls| ==> IsPastedLink(ls[k])
    ensures TrimmedNonEmpty(ls) == ls
  {
    if ls != [] {
      TrimOfTrimmed(ls[0]);
      TrimmedNonEmptyOfLinks(ls[1..]);
      assert ls == [ls[0]] + ls[1..];
    }
  }

  /** The leftmost separator from `from` on starts at `i`. */
  lemma {:induction false} NextSepIs(s: string, from: nat, i: nat)
    requires from <= i < |s| && SepAt(s, i) > 0
    requires forall k :: from <= k < i ==> SepAt(s, k) == 0
    ensures NextSep(s, from) == i
    decreases i - from
  {
    if from < i {
      NextSepIs(s, from + 1, i);
    }
  }

  /** No separator from `from` on. */
  lemma {:induction false} NextSepNone(s: string, from: nat)
    requires from <= |s|
    requires forall k :: from <= k < |s| ==> SepAt(s, k) == 0
    ensures NextSep(s, from) == |s|
    decreases |s| - from
  {
    if from < |s| {
      NextSepNone(s, from + 1);
    }
  }

  /** The first separator in `a + "\n" + b` is the line break after `a`. */
  lemma NextSepAfter(a: string, b: string)
    requires IsPastedLink(a)
    ensures var s := a + "\n" + b; NextSep(s, 0) == |a| && SepAt(s, |a|) == 1
  {
    var s := a + "\n" + b;
    assert s[|a|] == '\n';
    assert !IsSpace(a[|a| - 1]);
    forall k | 0 <= k < |a| ensures SepAt(s, k) == 0 {
      assert s[k] == a[k];
      assert !IsLinkSep(a[k]);
      if k + 1 < |a| {
        assert s[k + 1] == a[k + 1] && !IsLinkSep(a[k + 1]);
      } else {
        assert s[k] != '\r';
      }
    }
    NextSepIs(s, 0, |a|);
  }

  lemma {:induction false} SplitLinksOfJoin(ls: seq<string>)
    requires |ls| >= 1
    requires forall k :: 0 <= k < |ls| ==> IsPastedLink(ls[k])
    ensures SplitLinks(Join(ls, '\n')) == ls
    decreases |ls|
  {
    if |ls| == 1 {
      assert Join(ls, '\n') == ls[0];
      SplitLinksOfOne(ls[0]);
    } else {
      var b := Join(ls[1..], '\n');
      assert Join(ls, '\n') == ls[0] + "\n" + b;
      SplitLinksStep(ls[0], b);
      SplitLinksOfJoin(ls[1..]);
      assert ls == [ls[0]] + ls[1..];
    }
  }

  /** A single pasted link is not split. */
  lemma SplitLinksOfOne(s: string)
    requires IsPastedLink(s)
    ensures SplitLinks(s) == [s]
  {
    forall k | 0 <= k < |s| ensures SepAt(s, k) == 0 {
      assert !IsLinkSep(s[k]);
      if k + 1 < |s| {
        assert !IsLinkSep(s[k + 1]);
      }
    }
    NextSepNone(s, 0);
  }

  /** A pasted link followed by a line break is split off as the first part. */
  lemma SplitLinksStep(a: string, b: string)
    requires IsPastedLink(a)
    ensures SplitLinks(a + "\n" + b) == [a] + SplitLinks(b)
  {
    var s := a + "\n" + b;
    NextSepAfter(a, b);
    assert s[..|a|] == a;
    assert s[|a| + 1..] == b;
  }

  /** Links pasted one per line are found again, in order. */
  lemma LinksOfPasted(ls: seq<string>)
    requires forall k :: 0 <= k < |ls| ==> IsPastedLink(ls[k])
    ensures Links(Join(ls, '\n')) == ls
  {
    var s := Join(ls, '\n');
    if ls == [] {
      assert Cleaned(s) == [];
      assert SplitLinks([]) == [[]];
    } else {
      CleanedOfPasted(ls);
      SplitLinksOfJoin(ls);
      TrimmedNonEmptyOfLinks(ls);
    }
  }

  /** Pasted links joined by line breaks: neither end of the text is white space. */
  lemma PastedJoinIsTrimmed(ls: seq<string>)
    requires |ls| >= 1
    requires forall k :: 0 <= k < |ls| ==> IsPastedLink(ls[k])
    ensures IsTrimmed(Join(ls, '\n'))
  {
    var first, last := ls[0], ls[|ls| - 1];
    assert IsPastedLink(first) && IsPastedLink(last);
    JoinEnds(ls, '\n');
  }

  /** Pasted links joined by line breaks hold no zero-width character. */
  lemma PastedJoinIsClean(ls: seq<string>)
    requires forall k :: 0 <= k < |ls| ==> IsPastedLink(ls[k])
    ensures forall i :: 0 <= i < |Join(ls, '\n')| ==> !IsZeroWidth(Join(ls, '\n')[i])
  {
    forall k, i | 0 <= k < |ls| && 0 <= i < |ls[k]| ensures !IsZeroWidth(ls[k][i]) {
      assert IsPastedLink(ls[k]);
    }
    JoinKeeps(ls, '\n', c => !IsZeroWidth(c));
  }

  /** Cleaning leaves pasted links joined by line breaks as they are. */
  lemma CleanedOfPasted(ls: seq<string>)
    requires |ls| >= 1
    requires forall k :: 0 <= k < |ls| ==> IsPastedLink(ls[k])
    ensures Cleaned(Join(ls, '\n')) == Join(ls, '\n')
  {
    var s := Join(ls, '\n');
    PastedJoinIsTrimmed(ls);
    TrimOfTrimmed(s);
    PastedJoinIsClean(ls);
    RemoveZeroWidthOfClean(s);
  }

  /* ---------------- the upsert ---------------- */

  /** Two results belong to the same student and quiz. */
  predicate SameKey(a: StudentResult, b: StudentResult) {
    a.studentName == b.studentName && a.quizId == b.quizId
  }

  predicate HasKey(rs: seq<StudentResult>, r: StudentResult) {
    exists k :: 0 <= k < |rs| && SameKey(rs[k], r)
  }

  /** No two collected results belong to the same student and quiz. */
  predicate UniqueKeys(rs: seq<StudentResult>) {
    forall i, j :: 0 <= i < j < |rs| ==> !SameKey(rs[i], rs[j])
  }

  /** `collectedResults.findIndex(r => r.studentName === result.studentName && r.quizId === result.quizId)` */
  function FindIndex(rs: seq<StudentResult>, r: StudentResult): (i: Option<nat>)
    ensures i.Some? ==> (i.value < |rs| && SameKey(rs[i.value], r)
      && forall k :: 0 <= k < i.value ==> !SameKey(rs[k], r))
    ensures i.None? <==> !HasKey(rs, r)
  {
    if rs == [] then None
    else if SameKey(rs[0], r) then Some(0)
    else
      match FindIndex(rs[1..], r)
      case Some(i) => Some(i + 1)
      case None => None
  }

  /**
   * The result replaces the first entry with its key, in place, or is appended: the length grows
   * only for a new key, the result is present afterwards, and every entry with another key keeps
   * its value and position.
   */
  function Upsert(rs: seq<StudentResult>, r: StudentResult): (out: seq<StudentResult>)
    ensures |out| == if HasKey(rs, r) then |rs| else |rs| + 1
    ensures !HasKey(rs, r) ==> out[|rs|] == r
    ensures forall k :: 0 <= k < |rs| && !SameKey(rs[k], r) ==> out[k] == rs[k]
    ensures r in out
  {
    match FindIndex(rs, r)
    case Some(i) =>
      assert rs[i := r][i] == r;
      rs[i := r]
    case None =>
      assert (rs + [r])[|rs|] == r;
      rs + [r]
  }

  /** With unique keys, the entry with the result's key is the one replaced, and keys stay unique. */
  lemma UpsertUnique(rs: seq<StudentResult>, r: StudentResult)
    requires UniqueKeys(rs)
    ensures UniqueKeys(Upsert(rs, r))
    ensures forall k :: 0 <= k < |rs| ==> Upsert(rs, r)[k] == if SameKey(rs[k], r) then r else rs[k]
  {
    var out := Upsert(rs, r);
    match FindIndex(rs, r)
    case Some(i) =>
      assert out == rs[i := r];
      forall k | 0 <= k < |rs| && k != i ensures !SameKey(rs[k], r) {
        if i < k {
          assert !SameKey(rs[i], rs[k]);
        }
      }
    case None =>
      assert out == rs + [r];
  }

  lemma {:induction false} FindIndexIs(rs: seq<StudentResult>, r: StudentResult, i: nat)
    requires i < |rs| && SameKey(rs[i], r)
    requires forall k :: 0 <= k < i ==> !SameKey(rs[k], r)
    ensures FindIndex(rs, r) == Some(i)
  {
    if i > 0 {
      FindIndexIs(rs[1..], r, i - 1);
    }
  }

  /** Collecting the same result twice is collecting it once. */
  lemma UpsertIdempotent(rs: seq<StudentResult>, r: StudentResult)
    ensures Upsert(Upsert(rs, r), r) == Upsert(rs, r)
  {
    var out := Upsert(rs, r);
    match FindIndex(rs, r)
    case Some(i) =>
      assert out == rs[i := r];
      assert forall k :: 0 <= k < i ==> out[k] == rs[k];
      FindIndexIs(out, r, i);
    case None =>
      assert out == rs + [r];
      assert forall k :: 0 <= k < |rs| ==> out[k] == rs[k];
      FindIndexIs(out, r, |rs|);
  }

  /* ---------------- the collection loop ---------------- */

  /** What `collectResults` keeps of a decoded link: a result that names both a student and a quiz. */
  function Accepted(d: Decoders<StudentResult>, link: string): (r: Option<StudentResult>)
    ensures r.Some? ==> r.value.studentName != [] && r.value.quizId != []
  {
    match DecodeResultFromUrl(d, link)
    case Some(res) => if res.studentName != [] && res.quizId != [] then Some(res) else None
    case None => None
  }

  function AcceptedBy(d: Decoders<StudentResult>): string -> Option<StudentResult> {
    link => Accepted(d, link)
  }

  /** The collected list after upserting the accepted results of the first `n` links. */
  function Folded(rs: seq<StudentResult>, links: seq<string>, n: nat,
                  decode: string -> Option<StudentResult>): (out: seq<StudentResult>)
    requires n <= |links|
    ensures |rs| <= |out|
  {
    if n == 0 then rs
    else
      var prev := Folded(rs, links, n - 1, decode);
      match decode(links[n - 1])
      case Some(r) => Upsert(prev, r)
      case None => prev
  }

  /** How many of the first `n` links decode to an accepted result. */
  function SuccessCount(links: seq<string>, n: nat, decode: string -> Option<StudentResult>): (c: nat)
    requires n <= |links|
    ensures c <= n
  {
    if n == 0 then 0
    else SuccessCount(links, n - 1, decode) + (if decode(links[n - 1]).Some? then 1 else 0)
  }

  /** No accepted link among the first `n` has the key of `r`. */
  predicate Untouched(links: seq<string>, n: nat, decode: string -> Option<StudentResult>, r: StudentResult)
    requires n <= |links|
  {
    forall j :: 0 <= j < n && decode(links[j]).Some? ==> !SameKey(decode(links[j]).value, r)
  }

  /** An entry no accepted link touches keeps its value and position. */
  lemma {:induction false} FoldedKeepsOthers(rs: seq<StudentResult>, links: seq<string>, n: nat,
                                             decode: string -> Option<StudentResult>, k: nat)
    requires n <= |links| && k < |rs| && Untouched(links, n, decode, rs[k])
    ensures Folded(rs, links, n, decode)[k] == rs[k]
  {
    if n > 0 {
      FoldedKeepsOthers(rs, links, n - 1, decode, k);
      var prev := Folded(rs, links, n - 1, decode);
      if decode(links[n - 1]).Some? {
        assert !SameKey(decode(links[n - 1]).value, rs[k]);
        assert !SameKey(prev[k], decode(links[n - 1]).value);
      }
    }
  }

  /** The list grows by at most one entry per accepted link. */
  lemma {:induction false} FoldedGrowth(rs: seq<StudentResult>, links: seq<string>, n: nat,
                                        decode: string -> Option<StudentResult>)
    requires n <= |links|
    ensures |Folded(rs, links, n, decode)| <= |rs| + SuccessCount(links, n, decode)
  {
    if n > 0 {
      FoldedGrowth(rs, links, n - 1, decode);
    }
  }

  /** Collecting never lets two results of the same student and quiz in. */
  lemma {:induction false} FoldedUnique(rs: seq<StudentResult>, links: seq<string>, n: nat,
                                        decode: string -> Option<StudentResult>)
    requires n <= |links| && UniqueKeys(rs)
    ensures UniqueKeys(Folded(rs, links, n, decode))
  {
    if n > 0 {
      FoldedUnique(rs, links, n - 1, decode);
      var prev := Folded(rs, links, n - 1, decode);
      if decode(links[n - 1]).Some? {
        UpsertUnique(prev, decode(links[n - 1]).value);
      }
    }
  }

  /** The last accepted result for a student and quiz is the one that stays collected. */
  lemma {:induction false} FoldedLastWins(rs: seq<StudentResult>, links: seq<string>, n: nat,
                                          decode: string -> Option<StudentResult>, k: nat)
    requires k < n <= |links| && decode(links[k]).Some?
    requires forall j :: k < j < n && decode(links[j]).Some? ==> !SameKey(decode(links[j]).value, decode(links[k]).value)
    ensures decode(links[k]).value in Folded(rs, links, n, decode)
  {
    var r := decode(links[k]).value;
    var prev := Folded(rs, links, n - 1, decode);
    if k < n - 1 {
      FoldedLastWins(rs, links, n - 1, decode, k);
      var i :| 0 <= i < |prev| && prev[i] == r;
      if decode(links[n - 1]).Some? {
        var out := Upsert(prev, decode(links[n - 1]).value);
        assert out[i] == r;
      }
    } else {
      var out := Upsert(prev, r);
      var i :| 0 <= i < |out| && out[i] == r;
    }
  }

  class ResultCollection {
    var collected: seq<StudentResult>

    constructor(initial: seq<StudentResult>)
      ensures collected == initial
    {
      collected := initial;
    }

    /** The `urls.forEach` loop: upserts every accepted result and counts successes and errors. */
    method UpsertAll(links: seq<string>, decode: string -> Option<StudentResult>) returns (success: nat, errors: nat)
      modifies this
      ensures collected == Folded(old(collected), links, |links|, decode)
      ensures success == SuccessCount(links, |links|, decode)
      ensures success + errors == |links|
    {
      success, errors := 0, 0;
      var i := 0;
      while i < |links|
        invariant 0 <= i <= |links|
        invariant collected == Folded(old(collected), links, i, decode)
        invariant success == SuccessCount(links, i, decode)
        invariant success + errors == i
      {
        var result := decode(links[i]);
        if result.Some? {
          var existing := FindIndex(collected, result.value);
          if existing.Some? {
            collected := collected[existing.value := result.value];
          } else {
            collected := collected + [result.value];
          }
          success := success + 1;
        } else {
          errors := errors + 1;
        }
        i := i + 1;
      }
    }

    /**
     * `collectResults` on the pasted text `raw`: nothing happens for text that cleans to nothing;
     * otherwise every link is decoded and upserted, and the counts cover all links.
     */
    method CollectResults(raw: string, d: Decoders<StudentResult>) returns (outcome: CollectOutcome)
      modifies this
      ensures Cleaned(raw) == [] ==> outcome == NothingPasted && collected == old(collected)
      ensures Cleaned(raw) != [] ==>
        outcome.Counted?
        && collected == Folded(old(collected), Links(raw), |Links(raw)|, AcceptedBy(d))
        && outcome.success == SuccessCount(Links(raw), |Links(raw)|, AcceptedBy(d))
        && outcome.success + outcome.errors == |Links(raw)|
    {
      if Cleaned(raw) == [] {
        return NothingPasted;
      }
      var success, errors := UpsertAll(Links(raw), AcceptedBy(d));
      outcome := Counted(success, errors);
    }
  }

  /** The alert `collectResults` ends with: an empty paste, or the success and error counts. */
  datatype CollectOutcome = NothingPasted | Counted(success: nat, errors: nat)
}
