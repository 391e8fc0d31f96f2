/**
 Python `str` operations over `seq<char>`. `Split` (`s.split(sep)` for a
 non-empty separator) and `Strip` (`s.strip()` with no argument) are the two
 the certificate splitter calls. `Find` (the leftmost search inside `split`),
 `Count` (`s.count(sep)`) and `Join` (`sep.join(parts)`) are reference
 definitions used to state and prove what the split does. Python raises
 `ValueError` for an empty separator; the splitter always passes a non-empty
 literal, so the separator is required to be non-empty.
 */
module PyStr {

  datatype Option<T> = None | Some(value: T)

  /** `sep` occurs in `s` starting at index `j`. */
  predicate OccursAt(s: string, sep: string, j: int) {
    0 <= j && j + |sep| <= |s| && s[j..j + |sep|] == sep
  }

  /** `sep in s` in Python. */
  predicate Contains(s: string, sep: string) {
    exists j :: 0 <= j <= |s| - |sep| && OccursAt(s, sep, j)
  }

  /** Occurrences in `s[1..]` are the occurrences in `s` shifted down by one. */
  lemma OccursShift(s: string, sep: string)
    requires s != []
    ensures forall j :: 1 <= j ==> (OccursAt(s, sep, j) <==> OccursAt(s[1..], sep, j - 1))
    ensures forall j :: 0 <= j ==> (OccursAt(s[1..], sep, j) <==> OccursAt(s, sep, j + 1))
  {
    forall j | 0 <= j
      ensures OccursAt(s[1..], sep, j) <==> OccursAt(s, sep, j + 1)
    {
      if j + |sep| <= |s| - 1 {
        assert s[1..][j..j + |sep|] == s[j + 1..j + 1 + |sep|];
      }
    }
  }

  /** `sep` occurs at `k` and nowhere before it. */
  predicate FirstAt(s: string, sep: string, k: nat) {
    OccursAt(s, sep, k) && forall j :: 0 <= j < k ==> !OccursAt(s, sep, j)
  }

  /** Where Python's `s.find(sep)` looks: the scan position of the leftmost occurrence. */
  function Find(s: string, sep: string): (r: Option<nat>)
    requires sep != []
    ensures r.Some? ==> r.value + |sep| <= |s|
    decreases |s|
  {
    if |s| < |sep| then None
    else if s[..|sep|] == sep then Some(0)
    else
      match Find(s[1..], sep)
      case None => None
      case Some(k) => Some(k + 1)
  }

  /** `Find` gives the leftmost occurrence, and nothing exactly when there is none. */
  lemma {:induction false} FindSpec(s: string, sep: string)
    requires sep != []
    ensures Find(s, sep).Some? ==> FirstAt(s, sep, Find(s, sep).value)
    ensures Find(s, sep).None? <==> !Contains(s, sep)
    decreases |s|
  {
    if |s| >= |sep| && s[..|sep|] != sep {
      FindSpec(s[1..], sep);
      OccursShift(s, sep);
    }
  }

  /** `s.split(sep)`: cut at every leftmost, non-overlapping occurrence of `sep`. */
  function Split(s: string, sep: string): (r: seq<string>)
    requires sep != []
    ensures |r| >= 1
    decreases |s|
  {
    match Find(s, sep)
    case None => [s]
    case Some(k) => [s[..k]] + Split(s[k + |sep|..], sep)
  }

  /** `sep.join(parts)` for a non-empty list of parts. */
  function Join(parts: seq<string>, sep: string): string
    requires |parts| >= 1
  {
    if |parts| == 1 then parts[0] else parts[0] + sep + Join(parts[1..], sep)
  }

  /** `s.count(sep)`: scan left to right, counting a match and jumping past it. */
  function Count(s: string, sep: string): nat
    requires sep != []
    decreases |s|
  {
    if |s| < |sep| then 0
    else if s[..|sep|] == sep then 1 + Count(s[|sep|..], sep)
    else Count(s[1..], sep)
  }

  /** Unfolds `Split` at the first occurrence. */
  lemma SplitAt(s: string, sep: string, k: nat)
    requires sep != [] && Find(s, sep) == Some(k)
    ensures Split(s, sep) == [s[..k]] + Split(s[k + |sep|..], sep)
  {
  }

  /** Unfolds `Join` at its first piece. */
  lemma JoinCons(p: string, rest: seq<string>, sep: string)
    requires |rest| >= 1
    ensures Join([p] + rest, sep) == p + sep + Join(rest, sep)
  {
    assert ([p] + rest)[1..] == rest;
  }

  /** Unfolds `Join` at its last piece. */
  lemma {:induction false} JoinSnoc(parts: seq<string>, q: string, sep: string)
    requires |parts| >= 1
    ensures Join(parts + [q], sep) == Join(parts, sep) + sep + q
    decreases |parts|
  {
    if |parts| == 1 {
      assert (parts + [q])[1..] == [q];
    } else {
      assert (parts + [q])[1..] == parts[1..] + [q];
      JoinSnoc(parts[1..], q, sep);
    }
  }

  /** An occurrence cuts the text into what precedes it, the separator and what follows. */
  lemma AroundOccurrence(s: string, sep: string, k: nat)
    requires OccursAt(s, sep, k)
    ensures s == s[..k] + sep + s[k + |sep|..]
  {
    assert s == s[..k] + s[k..k + |sep|] + s[k + |sep|..];
  }

  /** Joining the pieces of a split with the same separator gives back the text. */
  lemma {:induction false} JoinSplit(s: string, sep: string)
    requires sep != []
    ensures Join(Split(s, sep), sep) == s
    decreases |s|
  {
    FindSpec(s, sep);
    match Find(s, sep)
    case None =>
    case Some(k) =>
      var rest := s[k + |sep|..];
      JoinSplit(rest, sep);
      SplitAt(s, sep, k);
      JoinCons(s[..k], Split(rest, sep), sep);
      AroundOccurrence(s, sep, k);
  }

  /** A prefix that ends before the first occurrence holds no occurrence. */
  lemma BeforeFirstIsFree(s: string, sep: string, k: nat)
    requires sep != [] && Find(s, sep) == Some(k)
    ensures !Contains(s[..k], sep)
  {
    FindSpec(s, sep);
    forall j | OccursAt(s[..k], sep, j)
      ensures false
    {
      assert s[..k][j..j + |sep|] == s[j..j + |sep|];
      assert OccursAt(s, sep, j);
    }
  }

  /** No piece of a split contains the separator. */
  lemma {:induction false} SplitPiecesFree(s: string, sep: string)
    requires sep != []
    ensures forall i :: 0 <= i < |Split(s, sep)| ==> !Contains(Split(s, sep)[i], sep)
    decreases |s|
  {
    FindSpec(s, sep);
    match Find(s, sep)
    case None =>
    case Some(k) =>
      BeforeFirstIsFree(s, sep, k);
      SplitPiecesFree(s[k + |sep|..], sep);
  }

  /** Without an occurrence among the first `k` positions, counting may start at `k`. */
  lemma {:induction false} CountSkip(s: string, sep: string, k: nat)
    requires sep != [] && k <= |s|
    requires forall j :: 0 <= j < k ==> !OccursAt(s, sep, j)
    ensures Count(s, sep) == Count(s[k..], sep)
    decreases k
  {
    if k > 0 && |s| >= |sep| {
      assert !OccursAt(s, sep, 0);
      OccursShift(s, sep);
      CountSkip(s[1..], sep, k - 1);
      assert s[1..][k - 1..] == s[k..];
    }
  }

  /** A text without the separator counts zero occurrences. */
  lemma {:induction false} CountFree(s: string, sep: string)
    requires sep != [] && !Contains(s, sep)
    ensures Count(s, sep) == 0
    decreases |s|
  {
    if |s| >= |sep| {
      assert !OccursAt(s, sep, 0);
      OccursShift(s, sep);
      CountFree(s[1..], sep);
    }
  }

  /** A split yields one piece more than `s.count(sep)`. */
  lemma {:induction false} SplitLength(s: string, sep: string)
    requires sep != []
    ensures |Split(s, sep)| == Count(s, sep) + 1
    decreases |s|
  {
    FindSpec(s, sep);
    match Find(s, sep)
    case None =>
      CountFree(s, sep);
    case Some(k) =>
      CountSkip(s, sep, k);
      var t := s[k..];
      assert t[..|sep|] == sep;
      assert t[|sep|..] == s[k + |sep|..];
      SplitLength(s[k + |sep|..], sep);
  }

  /** The split is the text alone exactly when the separator does not occur in it. */
  lemma SplitSingleton(s: string, sep: string)
    requires sep != []
    ensures Split(s, sep) == [s] <==> !Contains(s, sep)
  {
    FindSpec(s, sep);
    match Find(s, sep)
    case None =>
    case Some(k) =>
      assert |Split(s, sep)| >= 2;
  }

  /**
   Joining `p` to anything that starts with `sep` puts the first occurrence
   exactly at the join: no occurrence starts inside `p`.
   */
  predicate EndsCleanly(p: string, sep: string) {
    forall j :: 0 <= j < |p| ==> !OccursAt(p + sep, sep, j)
  }

  /** Inside an occurrence, the text agrees with the separator character by character. */
  lemma OccurrenceChar(t: string, sep: string, j: nat, m: nat)
    requires j + |sep| <= |t| && m < |sep|
    ensures OccursAt(t, sep, j) ==> t[j + m] == sep[m]
  {
    if OccursAt(t, sep, j) {
      assert t[j..j + |sep|][m] == t[j + m];
    }
  }

  /** `p` is empty or its last character does not occur in `sep`. */
  predicate EndsOutside(p: string, sep: string) {
    p == [] || p[|p| - 1] !in sep
  }

  /** A separator-free piece whose last character is not in `sep` ends cleanly. */
  lemma ForeignLastCharEndsCleanly(p: string, sep: string)
    requires !Contains(p, sep)
    requires EndsOutside(p, sep)
    ensures EndsCleanly(p, sep)
  {
    forall j | 0 <= j < |p|
      ensures !OccursAt(p + sep, sep, j)
    {
      if j + |sep| <= |p| {
        assert (p + sep)[j..j + |sep|] == p[j..j + |sep|];
        assert !OccursAt(p, sep, j);
      } else {
        OccurrenceChar(p + sep, sep, j, |p| - 1 - j);
      }
    }
  }

  /** `Find` gives the occurrence that no other occurrence precedes. */
  lemma FindIs(s: string, sep: string, k: nat)
    requires sep != [] && FirstAt(s, sep, k)
    ensures Find(s, sep) == Some(k)
  {
    FindSpec(s, sep);
    assert Contains(s, sep);
  }

  /** An occurrence that lies within `t` is one in `t + u` and conversely. */
  lemma OccursAppend(t: string, u: string, sep: string, j: nat)
    requires j + |sep| <= |t|
    ensures OccursAt(t + u, sep, j) <==> OccursAt(t, sep, j)
  {
    assert (t + u)[j..j + |sep|] == t[j..j + |sep|];
  }

  /** If the leftmost occurrence in `t` is at `k`, it still is in `t + u`. */
  lemma FindExtend(t: string, u: string, sep: string, k: nat)
    requires sep != [] && Find(t, sep) == Some(k)
    ensures Find(t + u, sep) == Some(k)
  {
    FindSpec(t, sep);
    OccursAppend(t, u, sep, k);
    forall j | 0 <= j < k
      ensures !OccursAt(t + u, sep, j)
    {
      OccursAppend(t, u, sep, j);
    }
    FindIs(t + u, sep, k);
  }

  /** After a piece that ends cleanly, the first occurrence is the separator that follows it. */
  lemma FindAtJoin(p: string, rest: string, sep: string)
    requires sep != [] && EndsCleanly(p, sep)
    ensures Find(p + sep + rest, sep) == Some(|p|)
  {
    assert (p + sep)[|p|..|p| + |sep|] == sep;
    FindIs(p + sep, sep, |p|);
    FindExtend(p + sep, rest, sep, |p|);
  }

  /**
   Splitting the join of pieces gives back the pieces, provided no piece holds
   the separator and joining creates no earlier occurrence.
   */
  lemma {:induction false} SplitJoin(parts: seq<string>, sep: string)
    requires sep != [] && |parts| >= 1
    requires forall i :: 0 <= i < |parts| - 1 ==> EndsCleanly(parts[i], sep)
    requires !Contains(parts[|parts| - 1], sep)
    ensures Split(Join(parts, sep), sep) == parts
    decreases |parts|
  {
    if |parts| == 1 {
      FindSpec(parts[0], sep);
    } else {
      var p := parts[0];
      var rest := Join(parts[1..], sep);
      assert parts == [p] + parts[1..];
      JoinCons(p, parts[1..], sep);
      FindAtJoin(p, rest, sep);
      var s := p + sep + rest;
      SplitAt(s, sep, |p|);
      assert s[..|p|] == p;
      assert s[|p| + |sep|..] == rest;
      var tail := parts[1..];
      forall i | 0 <= i < |tail| - 1
        ensures EndsCleanly(tail[i], sep)
      {
        assert tail[i] == parts[i + 1];
      }
      assert tail[|tail| - 1] == parts[|parts| - 1];
      SplitJoin(tail, sep);
    }
  }

  /** The text before the first occurrence does not run into that occurrence. */
  lemma BeforeFirstEndsCleanly(s: string, sep: string, k: nat)
    requires FirstAt(s, sep, k)
    ensures EndsCleanly(s[..k], sep)
  {
    var p := s[..k];
    var q := s[..k + |sep|];
    assert p + sep == q;
    forall j | 0 <= j < |p|
      ensures !OccursAt(p + sep, sep, j)
    {
      assert !OccursAt(s, sep, j);
      assert q[j..j + |sep|] == s[j..j + |sep|];
    }
  }

  /**
   Every piece of a split but the last ends cleanly: the split cuts at the
   leftmost occurrence, so no piece runs into the separator that follows it.
   With `SplitJoin`, `JoinSplit` and `SplitPiecesFree`, `Split(s, sep)` is the
   only decomposition of `s` with this shape.
   */
  lemma {:induction false} SplitPiecesClean(s: string, sep: string)
    requires sep != []
    ensures forall i :: 0 <= i < |Split(s, sep)| - 1 ==> EndsCleanly(Split(s, sep)[i], sep)
    decreases |s|
  {
    FindSpec(s, sep);
    match Find(s, sep)
    case None =>
    case Some(k) =>
      var rest := s[k + |sep|..];
      SplitAt(s, sep, k);
      SplitPiecesClean(rest, sep);
      BeforeFirstEndsCleanly(s, sep, k);
      var r := Split(s, sep);
      forall i | 1 <= i < |r| - 1
        ensures EndsCleanly(r[i], sep)
      {
        assert r[i] == Split(rest, sep)[i - 1];
      }
  }

  /** Python 3's `str.isspace()` for a single character. */
  predicate IsSpace(c: char) {
    var n := c as int;
    (0x09 <= n <= 0x0D) || (0x1C <= n <= 0x20) || n == 0x85 || n == 0xA0
    || n == 0x1680 || (0x2000 <= n <= 0x200A) || n == 0x2028 || n == 0x2029
    || n == 0x202F || n == 0x205F || n == 0x3000
  }

  /** Every character of `s` is whitespace (true of the empty string). */
  predicate IsBlank(s: string) {
    forall i :: 0 <= i < |s| ==> IsSpace(s[i])
  }

  /** The number of leading whitespace characters: where `strip()` starts. */
  function LeadingSpaces(s: string): (k: nat)
    ensures k <= |s|
    ensures forall i :: 0 <= i < k ==> IsSpace(s[i])
    ensures k < |s| ==> !IsSpace(s[k])
    decreases |s|
  {
    if s != [] && IsSpace(s[0]) then 1 + LeadingSpaces(s[1..]) else 0
  }

  /**
   Where `strip()` ends: scanning down from `j`, but not below `lo`, past
   trailing whitespace.
   */
  function TrailingEnd(s: string, lo: nat, j: nat): (b: nat)
    requires lo <= j <= |s|
    ensures lo <= b <= j
    ensures forall i :: b <= i < j ==> IsSpace(s[i])
    ensures b > lo ==> !IsSpace(s[b - 1])
    decreases j
  {
    if j > lo && IsSpace(s[j - 1]) then TrailingEnd(s, lo, j - 1) else j
  }

  /**
   `s.strip()`: the text between the leading and the trailing whitespace. It
   is empty exactly when `s` is blank, and otherwise starts and ends with a
   character that is not whitespace.
   */
  function Strip(s: string): (r: string)
    ensures r == [] <==> IsBlank(s)
    ensures r != [] ==> !IsSpace(r[0]) && !IsSpace(r[|r| - 1])
  {
    var a := LeadingSpaces(s);
    var b := TrailingEnd(s, a, |s|);
    s[a..b]
  }

  /**
   `s.strip()` removes only whitespace, and only from the two ends: it is a
   middle slice of `s` with blank text on either side.
   */
  lemma StripIsTrimmed(s: string)
    ensures exists a, b :: 0 <= a <= b <= |s| && Strip(s) == s[a..b] && IsBlank(s[..a]) && IsBlank(s[b..])
  {
    var a := LeadingSpaces(s);
    var b := TrailingEnd(s, a, |s|);
    assert IsBlank(s[..a]);
    assert IsBlank(s[b..]);
    assert Strip(s) == s[a..b];
  }
}
