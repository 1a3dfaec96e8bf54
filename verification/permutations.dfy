/** Reorderings and counting. The application shuffles with
    `array.sort(() => Math.random() - 0.5)`, whose outcome depends on the
    engine's sort and the random numbers it draws. The model does not say which
    order comes out: a shuffle is the sequence of exchanges the sort happens
    to perform, given as a parameter. Every such sequence yields a
    permutation, and every permutation is the outcome of some sequence, so
    "some permutation" is captured exactly. */
module Permutations {

  /** An exchange of the elements at two positions; one naming a position
      past the end leaves the sequence alone. */
  datatype Swap = Swap(i: nat, j: nat)

  function SwapAt<T>(s: seq<T>, w: Swap): (r: seq<T>)
    ensures |r| == |s|
  {
    if w.i < |s| && w.j < |s| then s[w.i := s[w.j]][w.j := s[w.i]] else s
  }

  /** Overwriting one position trades one occurrence for another. */
  lemma UpdateMultiset<T>(s: seq<T>, i: nat, v: T)
    requires i < |s|
    ensures multiset(s[i := v]) == multiset(s) - multiset{s[i]} + multiset{v}
  {
  }

  /** Taking one occurrence out and putting another in, then undoing both,
      gives the original collection back. */
  lemma TradeBack<T>(m: multiset<T>, a: T, b: T)
    requires a in m
    ensures m - multiset{a} + multiset{b} - multiset{b} + multiset{a} == m
  {
    var m1 := m - multiset{a} + multiset{b};
    assert m1 - multiset{b} == m - multiset{a};
    assert m - multiset{a} + multiset{a} == m;
  }

  /** An exchange keeps every element and its number of occurrences. */
  lemma SwapAtKeepsElements<T>(s: seq<T>, w: Swap)
    ensures multiset(SwapAt(s, w)) == multiset(s)
  {
    if w.i < |s| && w.j < |s| && w.i != w.j {
      ExchangeKeepsElements(s, w.i, w.j);
    }
  }

  lemma ExchangeKeepsElements<T>(s: seq<T>, i: nat, j: nat)
    requires i < |s| && j < |s| && i != j
    ensures multiset(s[i := s[j]][j := s[i]]) == multiset(s)
  {
    var a, b := s[i], s[j];
    var t := s[i := b];
    UpdateMultiset(s, i, b);
    assert t[j] == b;
    UpdateMultiset(t, j, a);
    TradeBack(multiset(s), a, b);
  }

  /** The exchanges `ws` performed in order. */
  function Permute<T>(s: seq<T>, ws: seq<Swap>): (r: seq<T>)
    ensures |r| == |s|
    ensures multiset(r) == multiset(s)
    decreases |ws|
  {
    if ws == [] then s
    else
      SwapAtKeepsElements(s, ws[0]);
      Permute(SwapAt(s, ws[0]), ws[1..])
  }

  /** Exchanges moved one position to the right. */
  function Shifted(ws: seq<Swap>): (r: seq<Swap>)
    ensures |r| == |ws|
    ensures forall k :: 0 <= k < |ws| ==> r[k] == Swap(ws[k].i + 1, ws[k].j + 1)
  {
    seq(|ws|, k requires 0 <= k < |ws| => Swap(ws[k].i + 1, ws[k].j + 1))
  }

  lemma SwapAtShifted<T>(x: T, u: seq<T>, w: Swap)
    ensures SwapAt([x] + u, Swap(w.i + 1, w.j + 1)) == [x] + SwapAt(u, w)
  {
    if w.i < |u| && w.j < |u| {
      var l, r := SwapAt([x] + u, Swap(w.i + 1, w.j + 1)), [x] + SwapAt(u, w);
      assert forall k :: 0 <= k < |l| ==> l[k] == r[k];
    }
  }

  /** Shifted exchanges leave the first element in place and act on the rest. */
  lemma {:induction false} PermuteShifted<T>(x: T, u: seq<T>, ws: seq<Swap>)
    ensures Permute([x] + u, Shifted(ws)) == [x] + Permute(u, ws)
    decreases |ws|
  {
    if ws != [] {
      ShiftedCons(ws);
      SwapAtShifted(x, u, ws[0]);
      PermuteCons([x] + u, Shifted(ws));
      PermuteCons(u, ws);
      PermuteShifted(x, SwapAt(u, ws[0]), ws[1..]);
    }
  }

  lemma ShiftedCons(ws: seq<Swap>)
    requires ws != []
    ensures Shifted(ws)[0] == Swap(ws[0].i + 1, ws[0].j + 1)
    ensures Shifted(ws)[1..] == Shifted(ws[1..])
  {
  }

  lemma PermuteCons<T>(s: seq<T>, ws: seq<Swap>)
    requires ws != []
    ensures Permute(s, ws) == Permute(SwapAt(s, ws[0]), ws[1..])
  {
  }

  lemma PermuteAppend<T>(s: seq<T>, ws: seq<Swap>, vs: seq<Swap>)
    ensures Permute(s, ws + vs) == Permute(Permute(s, ws), vs)
    decreases |ws|
  {
    if ws != [] {
      assert (ws + vs)[0] == ws[0];
      assert (ws + vs)[1..] == ws[1..] + vs;
      PermuteAppend(SwapAt(s, ws[0]), ws[1..], vs);
    } else {
      assert ws + vs == vs;
    }
  }

  /** Position of one occurrence of `x`. */
  ghost function Find<T>(s: seq<T>, x: T): (k: nat)
    requires x in multiset(s)
    ensures k < |s| && s[k] == x
  {
    if s[0] == x then 0
    else
      assert s == [s[0]] + s[1..];
      1 + Find(s[1..], x)
  }

  /** Every rearrangement of `s` is the outcome of some sequence of exchanges:
      the shuffle can produce any order, not only some. */
  lemma {:induction false} PermutationReachable<T>(s: seq<T>, t: seq<T>) returns (ws: seq<Swap>)
    requires multiset(s) == multiset(t)
    ensures Permute(s, ws) == t
    decreases |s|
  {
    SameLength(s, t);
    if s == [] {
      ws := [];
    } else {
      var w := FrontSwap(s, t);
      var s1 := SwapAt(s, w);
      var rest := PermutationReachable(s1[1..], t[1..]);
      PermuteShifted(t[0], s1[1..], rest);
      ws := [w] + Shifted(rest);
      PermuteOne(s, w);
      PermuteAppend(s, [w], Shifted(rest));
      assert s1 == [t[0]] + s1[1..];
      assert t == [t[0]] + t[1..];
    }
  }

  lemma SameLength<T>(s: seq<T>, t: seq<T>)
    requires multiset(s) == multiset(t)
    ensures |s| == |t|
  {
    assert |s| == |multiset(s)| == |t|;
  }

  /** One exchange brings the first element of `t` to the front of `s`,
      leaving the rest a rearrangement of the rest of `t`. */
  lemma FrontSwap<T>(s: seq<T>, t: seq<T>) returns (w: Swap)
    requires s != [] && multiset(s) == multiset(t)
    ensures |SwapAt(s, w)| == |t| && SwapAt(s, w)[0] == t[0]
    ensures multiset(SwapAt(s, w)[1..]) == multiset(t[1..])
  {
    SameLength(s, t);
    assert t[0] in multiset(t);
    var k := Find(s, t[0]);
    w := Swap(0, k);
    var s1 := SwapAt(s, w);
    SwapAtKeepsElements(s, w);
    DropFirst(s1);
    DropFirst(t);
  }

  lemma DropFirst<T>(s: seq<T>)
    requires s != []
    ensures multiset(s[1..]) == multiset(s) - multiset{s[0]}
  {
    assert s == [s[0]] + s[1..];
  }

  lemma PermuteOne<T>(s: seq<T>, w: Swap)
    ensures Permute(s, [w]) == SwapAt(s, w)
  {
    assert [w][1..] == [];
  }

  // ---- counting ----

  /** How many elements satisfy `p`. */
  function Count<T>(s: seq<T>, p: T -> bool): (c: nat)
    ensures c <= |s|
  {
    if s == [] then 0 else (if p(s[0]) then 1 else 0) + Count(s[1..], p)
  }

  lemma {:induction false} CountAppend<T>(s: seq<T>, t: seq<T>, p: T -> bool)
    ensures Count(s + t, p) == Count(s, p) + Count(t, p)
    decreases |s|
  {
    if s != [] {
      assert (s + t)[1..] == s[1..] + t;
      CountAppend(s[1..], t, p);
    } else {
      assert s + t == t;
    }
  }

  /** Every element satisfies `p` exactly when all of them are counted. */
  lemma {:induction false} CountAll<T>(s: seq<T>, p: T -> bool)
    ensures Count(s, p) == |s| <==> forall k :: 0 <= k < |s| ==> p(s[k])
    decreases |s|
  {
    if s != [] {
      CountAll(s[1..], p);
      if forall k :: 0 <= k < |s| ==> p(s[k]) {
        assert forall k :: 0 <= k < |s[1..]| ==> p(s[1..][k]) by {
          forall k | 0 <= k < |s[1..]| ensures p(s[1..][k]) {
            assert s[1..][k] == s[k + 1];
          }
        }
      } else if p(s[0]) {
        var k :| 0 <= k < |s| && !p(s[k]);
        assert s[1..][k - 1] == s[k];
      }
    }
  }

  /** No element satisfies `p` exactly when none is counted. */
  lemma {:induction false} CountNone<T>(s: seq<T>, p: T -> bool)
    ensures Count(s, p) == 0 <==> forall k :: 0 <= k < |s| ==> !p(s[k])
    decreases |s|
  {
    if s != [] {
      CountNone(s[1..], p);
      if forall k :: 0 <= k < |s| ==> !p(s[k]) {
        assert forall k :: 0 <= k < |s[1..]| ==> !p(s[1..][k]) by {
          forall k | 0 <= k < |s[1..]| ensures !p(s[1..][k]) {
            assert s[1..][k] == s[k + 1];
          }
        }
      } else if !p(s[0]) {
        var k :| 0 <= k < |s| && p(s[k]);
        assert s[1..][k - 1] == s[k];
      }
    }
  }

  /** Reordering does not change how many elements satisfy `p`. */
  lemma {:induction false} CountPermutation<T>(s: seq<T>, t: seq<T>, p: T -> bool)
    requires multiset(s) == multiset(t)
    ensures Count(s, p) == Count(t, p)
    decreases |s|
  {
    SameLength(s, t);
    if s != [] {
      assert s[0] in multiset(t);
      var k := Find(t, s[0]);
      var rest := t[..k] + t[k + 1..];
      CountWithout(t, k, p);
      Without(t, k);
      DropFirst(s);
      CountPermutation(s[1..], rest, p);
    }
  }

  /** Counting around one removed position. */
  lemma CountWithout<T>(t: seq<T>, k: nat, p: T -> bool)
    requires k < |t|
    ensures Count(t, p) == (if p(t[k]) then 1 else 0) + Count(t[..k] + t[k + 1..], p)
  {
    Around(t, k);
    CountAround(t[..k], t[k], t[k + 1..], p);
  }

  lemma Around<T>(t: seq<T>, k: nat)
    requires k < |t|
    ensures t == t[..k] + [t[k]] + t[k + 1..]
  {
  }

  lemma CountAround<T>(a: seq<T>, x: T, b: seq<T>, p: T -> bool)
    ensures Count(a + [x] + b, p) == (if p(x) then 1 else 0) + Count(a + b, p)
  {
    CountAppend(a + [x], b, p);
    CountAppend(a, [x], p);
    CountAppend(a, b, p);
    CountSingle(x, p);
  }

  lemma CountSingle<T>(x: T, p: T -> bool)
    ensures Count([x], p) == if p(x) then 1 else 0
  {
    assert [x][1..] == [];
  }

  lemma Without<T>(t: seq<T>, k: nat)
    requires k < |t|
    ensures multiset(t[..k] + t[k + 1..]) == multiset(t) - multiset{t[k]}
  {
    Around(t, k);
  }

  /** Two sequences judged the same position by position have the same
      count. */
  lemma {:induction false} CountSameVerdicts<T, U>(s: seq<T>, p: T -> bool, t: seq<U>, q: U -> bool)
    requires |s| == |t|
    requires forall k :: 0 <= k < |s| ==> p(s[k]) == q(t[k])
    ensures Count(s, p) == Count(t, q)
    decreases |s|
  {
    if s != [] {
      assert forall k :: 0 <= k < |s[1..]| ==> p(s[1..][k]) == q(t[1..][k]) by {
        forall k | 0 <= k < |s[1..]| ensures p(s[1..][k]) == q(t[1..][k]) {
          assert s[1..][k] == s[k + 1] && t[1..][k] == t[k + 1];
        }
      }
      CountSameVerdicts(s[1..], p, t[1..], q);
    }
  }
}
