/**
 First-match search, replacement and NUL-separated lists over byte sequences:
 the vocabulary in which the in-place configuration edits are specified.
 */
module ByteSearch {
  import opened Bytes

  predicate MatchAt(s: seq<byte>, pat: seq<byte>, i: nat) {
    i + |pat| <= |s| && forall k :: 0 <= k < |pat| ==> s[i + k] == pat[k]
  }

  lemma MatchByte(s: seq<byte>, pat: seq<byte>, i: nat, k: nat)
    requires MatchAt(s, pat, i) && k < |pat|
    ensures i + k < |s| && s[i + k] == pat[k]
  {
  }

  /** The first match of pat at or after from. */
  function Find(s: seq<byte>, pat: seq<byte>, from: nat): (r: Option<nat>)
    ensures r.Some? ==> from <= r.value && MatchAt(s, pat, r.value)
    ensures r.Some? ==> forall j :: from <= j < r.value ==> !MatchAt(s, pat, j)
    ensures r.None? ==> forall j :: from <= j ==> !MatchAt(s, pat, j)
    decreases |s| - from
  {
    if from + |pat| > |s| then None
    else if MatchAt(s, pat, from) then Some(from)
    else if from == |s| then None
    else Find(s, pat, from + 1)
  }

  /** First matches are unique, so any search loop that finds one agrees with Find. */
  lemma FindIs(s: seq<byte>, pat: seq<byte>, from: nat, i: nat)
    requires from <= i && MatchAt(s, pat, i)
    requires forall j :: from <= j < i ==> !MatchAt(s, pat, j)
    ensures Find(s, pat, from) == Some(i)
  {
  }

  /** The first index at or after from that holds b, or |s|. */
  function IndexOf(s: seq<byte>, b: byte, from: nat): (r: nat)
    requires from <= |s|
    ensures from <= r <= |s|
    ensures forall j :: from <= j < r ==> s[j] != b
    ensures r < |s| ==> s[r] == b
    decreases |s| - from
  {
    if from == |s| || s[from] == b then from else IndexOf(s, b, from + 1)
  }

  lemma IndexOfIs(s: seq<byte>, b: byte, from: nat, i: nat)
    requires from <= i <= |s|
    requires forall j :: from <= j < i ==> s[j] != b
    requires i < |s| ==> s[i] == b
    ensures IndexOf(s, b, from) == i
  {
  }

  function Splice(s: seq<byte>, i: nat, n: nat, rep: seq<byte>): seq<byte>
    requires i + n <= |s|
  {
    s[..i] + rep + s[i + n..]
  }

  /** Replace the first match, if there is one. */
  function ReplaceFirst(s: seq<byte>, pat: seq<byte>, rep: seq<byte>): (r: seq<byte>)
    ensures |r| <= |s| + |rep|
  {
    match Find(s, pat, 0)
    case None => s
    case Some(i) => Splice(s, i, |pat|, rep)
  }

  /** Replace every match, scanning left to right and resuming after each replaced match. */
  function ReplaceAll(s: seq<byte>, pat: seq<byte>, rep: seq<byte>): seq<byte>
    requires |pat| > 0
    decreases |s|
  {
    match Find(s, pat, 0)
    case None => s
    case Some(i) => s[..i] + rep + ReplaceAll(s[i + |pat|..], pat, rep)
  }

  // ---- NUL-separated lists ----

  predicate NulFree(s: seq<byte>) { forall j :: 0 <= j < |s| ==> s[j] != 0 }

  predicate AllNulFree(ts: seq<seq<byte>>) { forall t :: t in ts ==> NulFree(t) }

  function Split(s: seq<byte>): (r: seq<seq<byte>>)
    ensures |r| > 0
    decreases |s|
  {
    var i := IndexOf(s, 0, 0);
    if i == |s| then [s] else [s[..i]] + Split(s[i + 1..])
  }

  function Join(ts: seq<seq<byte>>): seq<byte>
    requires |ts| > 0
  {
    if |ts| == 1 then ts[0] else ts[0] + [0] + Join(ts[1..])
  }

  lemma {:induction false} SplitJoin(ts: seq<seq<byte>>)
    requires |ts| > 0 && AllNulFree(ts)
    ensures Split(Join(ts)) == ts
  {
    assert ts[0] in ts;
    if |ts| == 1 {
      SplitWhole(ts[0]);
    } else {
      hide Split;
      SplitJoin(ts[1..]);
      SplitAt(Join(ts), ts[0], Join(ts[1..]));
      assert ts == [ts[0]] + ts[1..];
    }
  }

  lemma SplitWhole(s: seq<byte>)
    requires NulFree(s)
    ensures Split(s) == [s]
  {
    IndexOfIs(s, 0, 0, |s|);
  }

  lemma SplitAt(s: seq<byte>, t: seq<byte>, rest: seq<byte>)
    requires s == t + [0] + rest && NulFree(t)
    ensures Split(s) == [t] + Split(rest)
  {
    IndexOfIs(s, 0, 0, |t|);
    assert s[..|t|] == t && s[|t| + 1..] == rest;
  }

  /** Appending one more table. */
  lemma {:induction false} JoinAppend(ts: seq<seq<byte>>, t: seq<byte>)
    requires |ts| > 0
    ensures Join(ts + [t]) == Join(ts) + [0] + t
  {
    if |ts| == 1 {
      assert (ts + [t])[1..] == [t];
    } else {
      assert (ts + [t])[1..] == ts[1..] + [t];
      JoinAppend(ts[1..], t);
    }
  }

  /** A NUL-free pattern never matches across a NUL. */
  lemma MatchAcrossNul(a: seq<byte>, b: seq<byte>, pat: seq<byte>, j: nat)
    requires NulFree(pat) && |pat| > 0
    ensures MatchAt(a + [0] + b, pat, j) <==>
            MatchAt(a, pat, j) || (|a| < j && MatchAt(b, pat, j - |a| - 1))
  {
    var s := a + [0] + b;
    if j <= |a| < j + |pat| <= |s| {
      assert pat[|a| - j] != 0 == s[j + (|a| - j)];
    }
  }

  lemma FindAcrossNul(a: seq<byte>, b: seq<byte>, pat: seq<byte>)
    requires NulFree(pat) && |pat| > 0
    ensures Find(a, pat, 0).Some? ==> Find(a + [0] + b, pat, 0) == Find(a, pat, 0)
    ensures Find(a, pat, 0).None? ==>
              match Find(b, pat, 0)
              case None => Find(a + [0] + b, pat, 0).None?
              case Some(j) => Find(a + [0] + b, pat, 0) == Some(|a| + 1 + j)
  {
    var s := a + [0] + b;
    forall j: nat
      ensures MatchAt(s, pat, j) <==> MatchAt(a, pat, j) || (|a| < j && MatchAt(b, pat, j - |a| - 1))
    {
      MatchAcrossNul(a, b, pat, j);
    }
    match Find(a, pat, 0)
    case Some(i) => FindIs(s, pat, 0, i);
    case None =>
      match Find(b, pat, 0)
      case Some(j) => FindIs(s, pat, 0, |a| + 1 + j);
      case None =>
  }

  /** ReplaceFirst on a list of tables: the first table with a match, and no other. */
  function ReplaceFirstTable(ts: seq<seq<byte>>, pat: seq<byte>, rep: seq<byte>): (r: seq<seq<byte>>)
    ensures |r| == |ts|
  {
    if |ts| == 0 then []
    else if Find(ts[0], pat, 0).Some? then [ReplaceFirst(ts[0], pat, rep)] + ts[1..]
    else [ts[0]] + ReplaceFirstTable(ts[1..], pat, rep)
  }

  /** ReplaceFirstTable edits the first table that holds a match and leaves every other table alone. */
  lemma {:induction false} ReplaceFirstTableAt(ts: seq<seq<byte>>, pat: seq<byte>, rep: seq<byte>, i: nat)
    requires i < |ts|
    ensures ReplaceFirstTable(ts, pat, rep)[i] ==
            if Find(ts[i], pat, 0).Some? && (forall j :: 0 <= j < i ==> Find(ts[j], pat, 0).None?)
            then ReplaceFirst(ts[i], pat, rep) else ts[i]
  {
    hide Find, ReplaceFirst;
    if i > 0 {
      if Find(ts[0], pat, 0).None? {
        var rest := ts[1..];
        ReplaceFirstTableAt(rest, pat, rep, i - 1);
        assert rest[i - 1] == ts[i];
        assert (forall j :: 0 <= j < i ==> Find(ts[j], pat, 0).None?)
          <==> (forall j :: 0 <= j < i - 1 ==> Find(rest[j], pat, 0).None?) by {
          assert forall j :: 0 <= j < i - 1 ==> rest[j] == ts[j + 1];
          assert forall j :: 1 <= j < i ==> ts[j] == rest[j - 1];
        }
      } else {
        assert ReplaceFirstTable(ts, pat, rep)[i] == ts[i];
      }
    }
  }

  lemma ConcatNulFree(s: seq<byte>, t: seq<byte>)
    requires NulFree(s) && NulFree(t)
    ensures NulFree(s + t)
  {
  }

  lemma ReplaceFirstNulFree(s: seq<byte>, pat: seq<byte>, rep: seq<byte>)
    requires NulFree(s) && NulFree(rep)
    ensures NulFree(ReplaceFirst(s, pat, rep))
  {
  }

  lemma {:induction false} ReplaceFirstTableNulFree(ts: seq<seq<byte>>, pat: seq<byte>, rep: seq<byte>)
    requires AllNulFree(ts) && NulFree(rep)
    ensures AllNulFree(ReplaceFirstTable(ts, pat, rep))
  {
    if |ts| > 0 {
      ReplaceFirstNulFree(ts[0], pat, rep);
      ReplaceFirstTableNulFree(ts[1..], pat, rep);
    }
  }

  lemma {:induction false} ReplaceAllNulFree(s: seq<byte>, pat: seq<byte>, rep: seq<byte>)
    requires NulFree(s) && NulFree(rep) && |pat| > 0
    ensures NulFree(ReplaceAll(s, pat, rep))
    decreases |s|
  {
    match Find(s, pat, 0)
    case None =>
    case Some(i) => ReplaceAllNulFree(s[i + |pat|..], pat, rep);
  }

  lemma ReplaceAllTablesNulFree(ts: seq<seq<byte>>, pat: seq<byte>, rep: seq<byte>)
    requires AllNulFree(ts) && NulFree(rep) && |pat| > 0
    ensures AllNulFree(ReplaceAllTables(ts, pat, rep))
  {
    forall i | 0 <= i < |ts|
      ensures NulFree(ReplaceAll(ts[i], pat, rep))
    {
      ReplaceAllNulFree(ts[i], pat, rep);
    }
  }

  lemma SpliceBeforeNul(a: seq<byte>, b: seq<byte>, i: nat, n: nat, rep: seq<byte>)
    requires i + n <= |a|
    ensures Splice(a + [0] + b, i, n, rep) == Splice(a, i, n, rep) + [0] + b
  {
  }

  lemma SpliceAfterNul(a: seq<byte>, b: seq<byte>, i: nat, n: nat, rep: seq<byte>)
    requires i + n <= |b|
    ensures Splice(a + [0] + b, |a| + 1 + i, n, rep) == a + [0] + Splice(b, i, n, rep)
  {
    var s := a + [0] + b;
    assert s[|a| + 1 + i + n..] == b[i + n..];
    assert s[..|a| + 1 + i] == a + [0] + b[..i];
  }

  lemma ReplaceFirstAcrossNul(s: seq<byte>, a: seq<byte>, b: seq<byte>, pat: seq<byte>, rep: seq<byte>)
    requires s == a + [0] + b && NulFree(pat) && |pat| > 0
    ensures ReplaceFirst(s, pat, rep) ==
            if Find(a, pat, 0).Some? then ReplaceFirst(a, pat, rep) + [0] + b
            else a + [0] + ReplaceFirst(b, pat, rep)
  {
    hide Find, Splice;
    FindAcrossNul(a, b, pat);
    match Find(a, pat, 0)
    case Some(i) => SpliceBeforeNul(a, b, i, |pat|, rep);
    case None =>
      match Find(b, pat, 0)
      case Some(j) => SpliceAfterNul(a, b, j, |pat|, rep);
      case None =>
  }

  lemma {:induction false} ReplaceFirstJoin(ts: seq<seq<byte>>, pat: seq<byte>, rep: seq<byte>)
    requires |ts| > 0 && NulFree(pat) && |pat| > 0
    ensures ReplaceFirst(Join(ts), pat, rep) == Join(ReplaceFirstTable(ts, pat, rep))
  {
    if |ts| > 1 {
      var a, b := ts[0], Join(ts[1..]);
      ReplaceFirstAcrossNul(Join(ts), a, b, pat, rep);
      if Find(a, pat, 0).Some? {
        assert ReplaceFirstTable(ts, pat, rep)[1..] == ts[1..];
      } else {
        ReplaceFirstJoin(ts[1..], pat, rep);
        assert ReplaceFirstTable(ts, pat, rep)[1..] == ReplaceFirstTable(ts[1..], pat, rep);
      }
    }
  }

  function ReplaceAllTables(ts: seq<seq<byte>>, pat: seq<byte>, rep: seq<byte>): (r: seq<seq<byte>>)
    requires |pat| > 0
    ensures |r| == |ts|
    ensures forall i :: 0 <= i < |ts| ==> r[i] == ReplaceAll(ts[i], pat, rep)
  {
    seq(|ts|, i requires 0 <= i < |ts| => ReplaceAll(ts[i], pat, rep))
  }

  lemma TailsBeforeNul(a: seq<byte>, b: seq<byte>, i: nat, k: nat)
    requires i <= k <= |a|
    ensures (a + [0] + b)[..i] == a[..i]
    ensures (a + [0] + b)[k..] == a[k..] + [0] + b
  {
  }

  lemma TailsAfterNul(a: seq<byte>, b: seq<byte>, i: nat, k: nat)
    requires i <= k <= |b|
    ensures (a + [0] + b)[..|a| + 1 + i] == a + [0] + b[..i]
    ensures (a + [0] + b)[|a| + 1 + k..] == b[k..]
  {
  }

  lemma Regroup(p: seq<byte>, rep: seq<byte>, q: seq<byte>, b: seq<byte>)
    ensures p + rep + (q + [0] + b) == p + rep + q + [0] + b
  {
  }

  lemma RegroupAfter(a: seq<byte>, p: seq<byte>, rep: seq<byte>, q: seq<byte>)
    ensures a + [0] + p + rep + q == a + [0] + (p + rep + q)
  {
  }

  lemma ReplaceAllStep(s: seq<byte>, pat: seq<byte>, rep: seq<byte>, i: nat, p: seq<byte>, q: seq<byte>)
    requires |pat| > 0 && Find(s, pat, 0) == Some(i)
    requires p == s[..i] && q == s[i + |pat|..]
    ensures ReplaceAll(s, pat, rep) == p + rep + ReplaceAll(q, pat, rep)
  {
  }

  lemma {:induction false} ReplaceAllAfterNul(s: seq<byte>, a: seq<byte>, b: seq<byte>, pat: seq<byte>, rep: seq<byte>)
    requires s == a + [0] + b && NulFree(pat) && |pat| > 0 && Find(a, pat, 0).None?
    ensures ReplaceAll(s, pat, rep) == a + [0] + ReplaceAll(b, pat, rep)
  {
    hide ReplaceAll;
    FindAcrossNul(a, b, pat);
    match Find(b, pat, 0)
    case None =>
      ReplaceAllNone(s, pat, rep);
      ReplaceAllNone(b, pat, rep);
    case Some(j) =>
      TailsAfterNul(a, b, j, j + |pat|);
      ReplaceAllStep(b, pat, rep, j, b[..j], b[j + |pat|..]);
      ReplaceAllStep(s, pat, rep, |a| + 1 + j, a + [0] + b[..j], b[j + |pat|..]);
      RegroupAfter(a, b[..j], rep, ReplaceAll(b[j + |pat|..], pat, rep));
  }

  lemma ReplaceAllNone(s: seq<byte>, pat: seq<byte>, rep: seq<byte>)
    requires |pat| > 0 && Find(s, pat, 0).None?
    ensures ReplaceAll(s, pat, rep) == s
  {
  }

  lemma {:induction false} ReplaceAllAcrossNul(s: seq<byte>, a: seq<byte>, b: seq<byte>, pat: seq<byte>, rep: seq<byte>)
    requires s == a + [0] + b && NulFree(pat) && |pat| > 0
    ensures ReplaceAll(s, pat, rep) == ReplaceAll(a, pat, rep) + [0] + ReplaceAll(b, pat, rep)
    decreases |a|
  {
    hide ReplaceAll;
    FindAcrossNul(a, b, pat);
    match Find(a, pat, 0)
    case Some(i) =>
      var q := a[i + |pat|..];
      TailsBeforeNul(a, b, i, i + |pat|);
      ReplaceAllAcrossNul(q + [0] + b, q, b, pat, rep);
      ReplaceAllStep(a, pat, rep, i, a[..i], q);
      ReplaceAllStep(s, pat, rep, i, a[..i], q + [0] + b);
      Regroup(a[..i], rep, ReplaceAll(q, pat, rep), ReplaceAll(b, pat, rep));
    case None =>
      ReplaceAllNone(a, pat, rep);
      ReplaceAllAfterNul(s, a, b, pat, rep);
  }

  lemma {:induction false} ReplaceAllJoin(ts: seq<seq<byte>>, pat: seq<byte>, rep: seq<byte>)
    requires |ts| > 0 && NulFree(pat) && |pat| > 0
    ensures ReplaceAll(Join(ts), pat, rep) == Join(ReplaceAllTables(ts, pat, rep))
  {
    if |ts| > 1 {
      ReplaceAllAcrossNul(Join(ts), ts[0], Join(ts[1..]), pat, rep);
      ReplaceAllJoin(ts[1..], pat, rep);
      assert ReplaceAllTables(ts, pat, rep)[1..] == ReplaceAllTables(ts[1..], pat, rep);
    }
  }
}
