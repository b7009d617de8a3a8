/**
 Several holders of numbered things, and what all of them hold together.
 */
module Holdings {

  ghost function Sum(holdings: seq<multiset<int>>): multiset<int> {
    if holdings == [] then multiset{} else Sum(holdings[..|holdings| - 1]) + holdings[|holdings| - 1]
  }

  ghost function SizeOf(holdings: seq<multiset<int>>): nat {
    if holdings == [] then 0 else SizeOf(holdings[..|holdings| - 1]) + |holdings[|holdings| - 1]|
  }

  lemma {:induction false} SumUpdate(hs: seq<multiset<int>>, i: nat, h: multiset<int>)
    requires i < |hs|
    ensures Sum(hs[i := h]) + hs[i] == Sum(hs) + h
  {
    var n := |hs| - 1;
    if i == n {
      assert hs[i := h][..n] == hs[..n];
    } else {
      SumUpdate(hs[..n], i, h);
      assert hs[i := h][..n] == hs[..n][i := h];
      AddToBoth(Sum(hs[..n][i := h]), hs[i], Sum(hs[..n]), h, hs[n]);
    }
  }

  lemma {:induction false} SumPart(hs: seq<multiset<int>>, i: nat)
    requires i < |hs|
    ensures hs[i] <= Sum(hs)
  {
    if i < |hs| - 1 { SumPart(hs[..|hs| - 1], i); }
  }

  lemma {:induction false} SumTwoParts(hs: seq<multiset<int>>, i: nat, j: nat)
    requires i < j < |hs|
    ensures hs[i] + hs[j] <= Sum(hs)
  {
    var n := |hs| - 1;
    if j == n {
      SumPart(hs[..n], i);
    } else {
      SumTwoParts(hs[..n], i, j);
    }
  }

  lemma {:induction false} SumSize(hs: seq<multiset<int>>)
    ensures |Sum(hs)| == SizeOf(hs)
  {
    if hs != [] { SumSize(hs[..|hs| - 1]); }
  }

  lemma {:induction false} SumNothing(hs: seq<multiset<int>>)
    requires forall i :: 0 <= i < |hs| ==> hs[i] == multiset{}
    ensures Sum(hs) == multiset{}
  {
    if hs != [] { SumNothing(hs[..|hs| - 1]); }
  }

  lemma AddToBoth(a: multiset<int>, b: multiset<int>, c: multiset<int>, d: multiset<int>, x: multiset<int>)
    requires a + b == c + d
    ensures (a + x) + b == (c + x) + d
  {
    assert (a + x) + b == (a + b) + x;
  }

  /** What moves between the store and one holder leaves the total alone. */
  lemma Exchange(f: multiset<int>, o: multiset<int>, f': multiset<int>, o': multiset<int>,
                 b: multiset<int>, b': multiset<int>)
    requires o' + b == o + b' && f' + b' == f + b
    ensures f' + o' == f + o
  {
    forall x | x in f' + o' + f + o ensures (f' + o')[x] == (f + o)[x] {
      assert (o' + b)[x] == (o + b')[x] && (f' + b')[x] == (f + b)[x];
    }
  }
}
