/** The two string helpers of main_dataset_uploader.py: `dropper`, which flags
    the sector and sub-sector total rows of the VOA classification sheet, and
    the loop that splits the investment sheet's column headers on ':' into
    two header levels and strips ' thousand' from the second. Both rest on a
    left-to-right scan for a literal pattern, as re.findall, re.sub and
    re.split do for a pattern without special characters. */
module TextHelpers {
  import opened LadTypes

  /** s holds the pattern p starting at position i. */
  predicate OccursAt(s: string, p: string, i: nat)
  {
    i + |p| <= |s| && s[i..i + |p|] == p
  }

  /** p is a substring of s. */
  predicate Contains(s: string, p: string)
  {
    exists i: nat :: i <= |s| && OccursAt(s, p, i)
  }

  /** The leftmost occurrence of p in s at or after position from. */
  function FindFrom(s: string, p: string, from: nat): (r: Option<nat>)
    requires from <= |s|
    ensures r.Some? ==> from <= r.value && r.value + |p| <= |s|
    decreases |s| - from
  {
    if from + |p| > |s| then None
    else if s[from..from + |p|] == p then Some(from)
    else FindFrom(s, p, from + 1)
  }

  /** FindFrom returns an occurrence with none before it, and nothing only
      when there is no occurrence at all. */
  lemma {:induction false} FindLeftmost(s: string, p: string, from: nat)
    requires from <= |s|
    ensures FindFrom(s, p, from).Some? ==> OccursAt(s, p, FindFrom(s, p, from).value)
    ensures FindFrom(s, p, from).Some? ==>
      forall j: nat :: from <= j < FindFrom(s, p, from).value ==> !OccursAt(s, p, j)
    ensures FindFrom(s, p, from).None? ==> forall j: nat :: from <= j <= |s| ==> !OccursAt(s, p, j)
    decreases |s| - from
  {
    if from + |p| <= |s| && s[from..from + |p|] != p {
      FindLeftmost(s, p, from + 1);
    }
  }

  /** The number of matches a find-all of p returns on s from position from: occurrences
      taken leftmost first, each scan resuming after the previous match. */
  function CountFrom(s: string, p: string, from: nat): nat
    requires |p| > 0 && from <= |s|
    decreases |s| - from
  {
    match FindFrom(s, p, from)
    case None => 0
    case Some(i) => 1 + CountFrom(s, p, i + |p|)
  }

  /** The find-all finds something exactly when p occurs in s. */
  lemma CountPositive(s: string, p: string)
    requires |p| > 0
    ensures CountFrom(s, p, 0) > 0 <==> Contains(s, p)
  {
    FindLeftmost(s, p, 0);
  }

  /** dropper(x): 1 for a row naming a SECTOR or Sub-sector total, 0 otherwise. */
  function Dropper(x: string): (out: int)
    ensures out == 0 || out == 1
    ensures out == 1 <==> Contains(x, "SECTOR") || Contains(x, "Sub-sector")
  {
    CountPositive(x, "SECTOR");
    CountPositive(x, "Sub-sector");
    if CountFrom(x, "SECTOR", 0) > 0 then 1
    else if CountFrom(x, "Sub-sector", 0) > 0 then 1
    else 0
  }

  // ---------------------------------------------------------------------------
  // Substitution of the empty string: every match removed
  // ---------------------------------------------------------------------------

  /** Every match of p in s from position from removed: the text between the matches, in order. */
  function RemoveFrom(s: string, p: string, from: nat): string
    requires |p| > 0 && from <= |s|
    decreases |s| - from
  {
    match FindFrom(s, p, from)
    case None => s[from..]
    case Some(i) => s[from..i] + RemoveFrom(s, p, i + |p|)
  }

  /** Every match removed shortens the text by the length of the pattern. */
  lemma {:induction false} RemoveLength(s: string, p: string, from: nat)
    requires |p| > 0 && from <= |s|
    ensures |RemoveFrom(s, p, from)| == |s| - from - |p| * CountFrom(s, p, from)
    decreases |s| - from
  {
    match FindFrom(s, p, from)
    case None =>
    case Some(i) =>
      RemoveLength(s, p, i + |p|);
      MulSucc(|p|, CountFrom(s, p, i + |p|));
  }

  lemma MulSucc(a: nat, b: nat)
    ensures a * (1 + b) == a + a * b
  {
  }

  /** A string without the pattern is left unchanged. */
  lemma RemoveAbsent(s: string, p: string)
    requires |p| > 0
    requires !Contains(s, p)
    ensures RemoveFrom(s, p, 0) == s
  {
    FindLeftmost(s, p, 0);
    if FindFrom(s, p, 0).None? {
      assert s[0..] == s;
    }
  }

  /** Searching the text from position d + i finds what searching its
      suffix from d finds from i, shifted by d. */
  lemma {:induction false} FindSuffix(s: string, d: nat, p: string, i: nat)
    requires d + i <= |s|
    ensures FindFrom(s[d..], p, i).None? ==> FindFrom(s, p, d + i).None?
    ensures FindFrom(s[d..], p, i).Some? ==> FindFrom(s, p, d + i) == Some(d + FindFrom(s[d..], p, i).value)
    decreases |s| - d - i
  {
    var y := s[d..];
    if i + |p| <= |y| {
      assert s[d + i..d + i + |p|] == y[i..i + |p|];
      if y[i..i + |p|] != p {
        FindSuffix(s, d, p, i + 1);
      }
    }
  }

  /** Removing matches from position d + i of the text is removing them
      from position i of its suffix from d. */
  lemma {:induction false} RemoveSuffix(s: string, d: nat, p: string, i: nat)
    requires |p| > 0 && d + i <= |s|
    ensures RemoveFrom(s, p, d + i) == RemoveFrom(s[d..], p, i)
    decreases |s| - d - i
  {
    match FindFrom(s[d..], p, i)
    case None =>
      RemoveSuffixNone(s, d, p, i);
    case Some(j) =>
      var k := j + |p|;
      RemoveSuffixSome(s, d, p, i, j, k);
      RemoveSuffix(s, d, p, k);
  }

  /** With no match left in the suffix, both removals keep the same rest. */
  lemma RemoveSuffixNone(s: string, d: nat, p: string, i: nat)
    requires |p| > 0 && d + i <= |s|
    requires FindFrom(s[d..], p, i).None?
    ensures RemoveFrom(s, p, d + i) == RemoveFrom(s[d..], p, i)
  {
    var y := s[d..];
    FindSuffix(s, d, p, i);
    RemoveNone(s, p, d + i);
    RemoveNone(y, p, i);
    assert s[d + i..] == y[i..];
  }

  /** With a match at j of the suffix, both removals keep the same text
      before it and resume at the same place after it. */
  lemma RemoveSuffixSome(s: string, d: nat, p: string, i: nat, j: nat, k: nat)
    requires |p| > 0 && d + i <= |s|
    requires FindFrom(s[d..], p, i) == Some(j) && k == j + |p|
    ensures d + k <= |s|
    ensures RemoveFrom(s, p, d + i) == s[d + i..d + j] + RemoveFrom(s, p, d + k)
    ensures RemoveFrom(s[d..], p, i) == s[d + i..d + j] + RemoveFrom(s[d..], p, k)
  {
    FindSuffix(s, d, p, i);
    RemoveUnfold(s, p, d + i, d + j, d + k);
    RemoveUnfold(s[d..], p, i, j, k);
    SliceOfSuffix(s, d, i, j);
  }

  lemma SliceOfSuffix(s: string, d: nat, i: nat, j: nat)
    requires d + i <= d + j <= |s|
    ensures s[d..][i..j] == s[d + i..d + j]
  {
  }

  /** Removing matches from the y part of x + y is removing them from y. */
  lemma RemoveShift(x: string, y: string, p: string)
    requires |p| > 0
    ensures RemoveFrom(x + y, p, |x|) == RemoveFrom(y, p, 0)
  {
    RemoveSuffix(x + y, |x|, p, 0);
    assert (x + y)[|x|..] == y;
  }

  /** Without a further match the removal keeps the rest of the text. */
  lemma RemoveNone(s: string, p: string, from: nat)
    requires |p| > 0 && from <= |s|
    requires FindFrom(s, p, from) == None
    ensures RemoveFrom(s, p, from) == s[from..]
  {
  }

  /** When the leftmost match of p in a + p + b is the one after a, the
      removal keeps a and goes on with b: the text before a match is kept,
      the match is dropped, and the scan resumes after it. */
  lemma RemoveSplit(a: string, p: string, b: string)
    requires |p| > 0
    requires FindFrom(a + p + b, p, 0) == Some(|a|)
    ensures RemoveFrom(a + p + b, p, 0) == a + RemoveFrom(b, p, 0)
  {
    var s := a + p + b;
    var x := a + p;
    assert s == x + b && |x| == |a| + |p|;
    RemoveUnfold(s, p, 0, |a|, |x|);
    assert s[0..|a|] == a;
    RemoveShift(x, b, p);
  }

  /** One step of the removal: the text up to the next match, then the rest. */
  lemma RemoveUnfold(s: string, p: string, from: nat, i: nat, next: nat)
    requires |p| > 0 && from <= |s|
    requires FindFrom(s, p, from) == Some(i) && next == i + |p|
    ensures next <= |s|
    ensures RemoveFrom(s, p, from) == s[from..i] + RemoveFrom(s, p, next)
  {
  }

  /** The removal keeps the text of a header that ends in one match, and
      nothing of the match. */
  lemma DropTrailing(a: string)
    requires FindFrom(a + " thousand", " thousand", 0) == Some(|a|)
    ensures DropThousand(a + " thousand") == a
  {
    RemoveTrailing(a, " thousand");
  }

  /** A text whose only match of p is the one it ends in loses just that match. */
  lemma RemoveTrailing(a: string, p: string)
    requires |p| > 0
    requires FindFrom(a + p, p, 0) == Some(|a|)
    ensures RemoveFrom(a + p, p, 0) == a
  {
    var s := a + p;
    RemoveUnfold(s, p, 0, |a|, |s|);
    RemoveNone(s, p, |s|);
    assert s[0..|a|] == a;
  }

  /** The header with every ' thousand' removed. */
  function DropThousand(x: string): string
  {
    RemoveFrom(x, " thousand", 0)
  }

  /** Every header with ' thousand' removed, in order. */
  function DropThousandEach(headers: seq<string>): (r: seq<string>)
    ensures |r| == |headers|
    ensures forall i :: 0 <= i < |headers| ==> r[i] == DropThousand(headers[i])
  {
    seq(|headers|, i requires 0 <= i < |headers| => DropThousand(headers[i]))
  }

  // ---------------------------------------------------------------------------
  // Splitting on ':'
  // ---------------------------------------------------------------------------

  /** The position of the first ':' of s. */
  function FirstColon(s: string): (k: nat)
    requires ':' in s
    ensures k < |s| && s[k] == ':' && ':' !in s[..k]
  {
    if s[0] == ':' then 0
    else
      assert ':' in s[1..] by {
        var j :| 0 <= j < |s| && s[j] == ':';
        assert s[1..][j - 1] == ':';
      }
      var k := 1 + FirstColon(s[1..]);
      assert s[..k] == [s[0]] + s[1..][..k - 1];
      k
  }

  /** The pieces joined back with ':' between them. */
  function JoinColon(parts: seq<string>): string
    requires |parts| > 0
    decreases |parts|
  {
    if |parts| == 1 then parts[0] else parts[0] + ":" + JoinColon(parts[1..])
  }

  /** No piece holds a ':'. */
  predicate ColonFree(parts: seq<string>)
  {
    forall i :: 0 <= i < |parts| ==> ':' !in parts[i]
  }

  /** s split on ':': the maximal ':'-free pieces of s, in order. */
  function SplitColon(s: string): (parts: seq<string>)
    ensures |parts| > 0
    ensures ColonFree(parts)
    ensures JoinColon(parts) == s
    decreases |s|
  {
    if ':' !in s then [s]
    else
      var k := FirstColon(s);
      var rest := SplitColon(s[k + 1..]);
      assert s == s[..k] + ":" + s[k + 1..];
      [s[..k]] + rest
  }

  /** The first ':' of a + ":" + b, when a has none, is right after a. */
  lemma FirstColonAfter(a: string, b: string)
    requires ':' !in a
    ensures ':' in a + ":" + b
    ensures FirstColon(a + ":" + b) == |a|
  {
    var s := a + ":" + b;
    assert s[|a|] == ':';
    assert s[..|a|] == a;
  }

  /** Splitting undoes joining: the ':'-free pieces of a string are unique. */
  lemma {:induction false} SplitJoin(parts: seq<string>)
    requires |parts| > 0 && ColonFree(parts)
    ensures SplitColon(JoinColon(parts)) == parts
    decreases |parts|
  {
    if |parts| > 1 {
      var a := parts[0];
      var b := JoinColon(parts[1..]);
      var s := a + ":" + b;
      FirstColonAfter(a, b);
      assert s[..|a|] == a;
      assert s[|a| + 1..] == b;
      assert ColonFree(parts[1..]) by {
        forall i | 0 <= i < |parts| - 1 ensures ':' !in parts[1..][i] {
          assert parts[1..][i] == parts[i + 1];
        }
      }
      SplitJoin(parts[1..]);
      assert parts == [a] + parts[1..];
    }
  }

  /** The text before the first ':' of x, or all of x when it has none. */
  function BeforeColon(x: string): string
  {
    if ':' in x then x[..FirstColon(x)] else x
  }

  /** The first header level of column x: '' when x has no ':', else the part
      before the first ':'. */
  function Level1(x: string): (r: string)
    ensures ':' !in r
    ensures ':' !in x ==> r == ""
    ensures ':' in x ==> |r| < |x| && x[..|r|] == r && x[|r|] == ':'
  {
    if ':' in x then x[..FirstColon(x)] else ""
  }

  /** The second header level of column x: x itself when x has no ':', else
      the part between the first and the second ':' (or the end). */
  function Level2(x: string): (r: string)
    ensures ':' !in r
    ensures ':' !in x ==> r == x
  {
    if ':' in x then BeforeColon(x[FirstColon(x) + 1..]) else x
  }

  /** The first piece of the split of x on ':' is the text before the first ':'. */
  lemma SplitFirst(x: string)
    ensures SplitColon(x)[0] == BeforeColon(x)
    ensures |SplitColon(x)| == 1 <==> ':' !in x
  {
    if ':' in x {
      var k := FirstColon(x);
      assert |SplitColon(x[k + 1..])| > 0;
    }
  }

  /** The header loop's two cases pick the two levels: ('', x) for a column
      without ':', else the first two pieces of the split. */
  lemma SplitLevels(x: string)
    ensures |SplitColon(x)| == 1 ==> Level1(x) == "" && Level2(x) == SplitColon(x)[0]
    ensures |SplitColon(x)| > 1 ==> Level1(x) == SplitColon(x)[0] && Level2(x) == SplitColon(x)[1]
  {
    SplitFirst(x);
    if ':' in x {
      var k := FirstColon(x);
      SplitFirst(x[k + 1..]);
      assert SplitColon(x)[1] == SplitColon(x[k + 1..])[0];
    }
  }

  /** The header loop: header1 and header2 grow by one entry per column,
      then ' thousand' is removed from every header2 entry. */
  method SplitHeaders(columns: seq<string>) returns (header1: seq<string>, header2: seq<string>)
    ensures |header1| == |columns| && |header2| == |columns|
    ensures forall i :: 0 <= i < |columns| ==> header1[i] == Level1(columns[i])
    ensures forall i :: 0 <= i < |columns| ==> header2[i] == DropThousand(Level2(columns[i]))
  {
    header1 := [];
    var raw2: seq<string> := [];
    var n := 0;
    while n < |columns|
      invariant n <= |columns|
      invariant |header1| == n && |raw2| == n
      invariant forall i :: 0 <= i < n ==> header1[i] == Level1(columns[i]) && raw2[i] == Level2(columns[i])
    {
      var parts := SplitColon(columns[n]);
      var first, second;
      if |parts| == 1 {
        first, second := "", parts[0];
      } else {
        first, second := parts[0], parts[1];
      }
      SplitLevels(columns[n]);
      header1 := header1 + [first];
      raw2 := raw2 + [second];
      n := n + 1;
    }
    header2 := DropThousandEach(raw2);
  }
}
