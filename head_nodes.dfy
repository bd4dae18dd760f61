/**
 * The iframe's `document.head`, abstracted to the sequence of its child nodes'
 * identities, and the two DOM operations the preview handler applies to it.
 */
module HeadNodes {
  /** The identity of a DOM node. */
  type NodeId = nat

  /** A DOM node is a child of its parent at most once. */
  predicate Distinct(h: seq<NodeId>) {
    forall i, j :: 0 <= i < j < |h| ==> h[i] != h[j]
  }

  /**
   * `head.removeChild(n)` wrapped in `try { } catch (_) { }`: the node is taken
   * out of the head, and a node that is not a child leaves the head as it was
   * (the DOM throws and the handler swallows the exception).
   */
  function Without(h: seq<NodeId>, n: NodeId): (r: seq<NodeId>)
    ensures n !in h ==> r == h
    ensures n in h ==> |r| == |h| - 1
    ensures forall x :: x in r ==> x in h
    ensures forall x :: x in h && x != n ==> x in r
    ensures Distinct(h) ==> Distinct(r) && n !in r
  {
    if h == [] then []
    else if h[0] == n then
      assert h == [h[0]] + h[1..];
      h[1..]
    else
      var r := [h[0]] + Without(h[1..], n);
      assert Distinct(h) ==> h[0] !in h[1..];
      r
  }

  /** The position of the first occurrence of `n` in `h`. */
  function FirstIndex(h: seq<NodeId>, n: NodeId): (i: nat)
    requires n in h
    ensures i < |h| && h[i] == n
    ensures forall k :: 0 <= k < i ==> h[k] != n
  {
    if h[0] == n then 0 else FirstIndex(h[1..], n) + 1
  }

  /**
   * Removing an attached node cuts the head at its first occurrence and keeps
   * every other node in its order.
   */
  lemma {:induction false} WithoutKeepsOrder(h: seq<NodeId>, n: NodeId)
    requires n in h
    ensures var i := FirstIndex(h, n); Without(h, n) == h[..i] + h[i + 1..]
  {
    if h[0] != n {
      var t := h[1..];
      assert h == [h[0]] + t;
      WithoutKeepsOrder(t, n);
      var j := FirstIndex(t, n);
      var i := j + 1;
      assert h[..i] == [h[0]] + t[..j];
      assert h[i + 1..] == t[j + 1..];
      assert Without(h, n) == [h[0]] + Without(t, n);
    }
  }

  /** The nodes of `h` whose identity is below `k` (the template's nodes), in their order in `h`. */
  function Below(h: seq<NodeId>, k: nat): (r: seq<NodeId>)
    ensures forall x :: x in r <==> x in h && x < k
    ensures Distinct(h) ==> Distinct(r)
  {
    if h == [] then []
    else
      assert Distinct(h) ==> h[0] !in h[1..];
      (if h[0] < k then [h[0]] else []) + Below(h[1..], k)
  }

  /** The nodes of `h` whose identity is at least `k` (the nodes the handler created), in their order in `h`. */
  function Above(h: seq<NodeId>, k: nat): (r: seq<NodeId>)
    ensures forall x :: x in r <==> x in h && k <= x
    ensures Distinct(h) ==> Distinct(r)
  {
    if h == [] then []
    else
      assert Distinct(h) ==> h[0] !in h[1..];
      (if k <= h[0] then [h[0]] else []) + Above(h[1..], k)
  }

  /** Template nodes followed by created nodes split back into the two parts. */
  lemma SplitAtTemplate(kept: seq<NodeId>, added: seq<NodeId>, k: nat)
    requires forall x :: x in kept ==> x < k
    requires forall x :: x in added ==> k <= x
    ensures Below(kept + added, k) == kept && Above(kept + added, k) == added
  {
    BelowOfTemplate(kept, k);
    AboveOfCreated(added, k);
    BelowAppend(kept, added, k);
  }

  /** The text content of each node of `h`, in order. */
  function Texts(h: seq<NodeId>, t: map<NodeId, string>): (r: seq<string>)
    requires forall x :: x in h ==> x in t
    ensures |r| == |h|
  {
    if h == [] then [] else [t[h[0]]] + Texts(h[1..], t)
  }

  /** Filtering by identity distributes over concatenation. */
  lemma BelowAppend(a: seq<NodeId>, b: seq<NodeId>, k: nat)
    ensures Below(a + b, k) == Below(a, k) + Below(b, k)
    ensures Above(a + b, k) == Above(a, k) + Above(b, k)
  {
    BelowAppendOnly(a, b, k);
    AboveAppendOnly(a, b, k);
  }

  lemma {:induction false} BelowAppendOnly(a: seq<NodeId>, b: seq<NodeId>, k: nat)
    ensures Below(a + b, k) == Below(a, k) + Below(b, k)
    decreases |a|
  {
    if a == [] {
      assert a + b == b;
    } else {
      var head := if a[0] < k then [a[0]] else [];
      assert (a + b)[0] == a[0];
      assert (a + b)[1..] == a[1..] + b;
      BelowAppendOnly(a[1..], b, k);
      assert Below(a + b, k) == head + Below(a[1..] + b, k);
      assert Below(a, k) == head + Below(a[1..], k);
    }
  }

  lemma {:induction false} AboveAppendOnly(a: seq<NodeId>, b: seq<NodeId>, k: nat)
    ensures Above(a + b, k) == Above(a, k) + Above(b, k)
    decreases |a|
  {
    if a == [] {
      assert a + b == b;
    } else {
      var head := if k <= a[0] then [a[0]] else [];
      assert (a + b)[0] == a[0];
      assert (a + b)[1..] == a[1..] + b;
      AboveAppendOnly(a[1..], b, k);
      assert Above(a + b, k) == head + Above(a[1..] + b, k);
      assert Above(a, k) == head + Above(a[1..], k);
    }
  }

  /** A sequence of template nodes is its own template part and has no created part. */
  lemma {:induction false} BelowOfTemplate(h: seq<NodeId>, k: nat)
    requires forall x :: x in h ==> x < k
    ensures Below(h, k) == h
    ensures Above(h, k) == []
    decreases |h|
  {
    if h != [] {
      var t := h[1..];
      assert h[0] in h && h[0] < k;
      assert forall x :: x in t ==> x in h;
      BelowOfTemplate(t, k);
      assert Below(h, k) == [h[0]] + Below(t, k);
    }
  }

  /** A sequence of created nodes has no template part and is its own created part. */
  lemma {:induction false} AboveOfCreated(h: seq<NodeId>, k: nat)
    requires forall x :: x in h ==> k <= x
    ensures Below(h, k) == []
    ensures Above(h, k) == h
    decreases |h|
  {
    if h != [] {
      var t := h[1..];
      assert h[0] in h && k <= h[0];
      assert forall x :: x in t ==> x in h;
      AboveOfCreated(t, k);
      assert Above(h, k) == [h[0]] + Above(t, k);
    }
  }

  /** A sequence of distinct nodes drawn from `s` is no longer than `s` is large. */
  lemma {:induction false} DistinctWithin(h: seq<NodeId>, s: set<NodeId>)
    requires Distinct(h)
    requires forall x :: x in h ==> x in s
    ensures |h| <= |s|
    decreases |h|
  {
    if h != [] {
      assert forall x :: x in h[1..] ==> x != h[0];
      DistinctWithin(h[1..], s - {h[0]});
    }
  }

  /** Texts depend only on the text of the nodes listed. */
  lemma {:induction false} TextsAgree(h: seq<NodeId>, t1: map<NodeId, string>, t2: map<NodeId, string>)
    requires forall x :: x in h ==> x in t1 && x in t2 && t1[x] == t2[x]
    ensures Texts(h, t1) == Texts(h, t2)
    decreases |h|
  {
    if h != [] {
      assert forall x :: x in h[1..] ==> x in h;
      TextsAgree(h[1..], t1, t2);
    }
  }

  /** Appending two fresh nodes `a` then `b`, given texts `x` and `y`, appends `x` then `y` to the texts. */
  lemma TextsAppendTwo(h: seq<NodeId>, t: map<NodeId, string>, a: NodeId, x: string, b: NodeId, y: string)
    requires forall n :: n in h ==> n in t && n != a && n != b
    requires a != b
    ensures Texts(h + [a, b], t[a := x][b := y]) == Texts(h, t) + [x, y]
  {
    var t' := t[a := x][b := y];
    TextsAppend(h, [a, b], t');
    TextsAgree(h, t, t');
    assert Texts([a, b], t') == [x] + Texts([b], t');
  }

  /** Texts distribute over concatenation. */
  lemma {:induction false} TextsAppend(a: seq<NodeId>, b: seq<NodeId>, t: map<NodeId, string>)
    requires forall x :: x in a ==> x in t
    requires forall x :: x in b ==> x in t
    ensures forall x :: x in a + b ==> x in t
    ensures Texts(a + b, t) == Texts(a, t) + Texts(b, t)
    decreases |a|
  {
    if a == [] {
      assert a + b == b;
    } else {
      var c := a[1..];
      assert forall x :: x in c ==> x in a;
      TextsAppend(c, b, t);
      assert a + b == [a[0]] + (c + b);
    }
  }

  /** Appending nodes above every identity already present keeps a head free of duplicates. */
  lemma DistinctAppendFresh(h: seq<NodeId>, added: seq<NodeId>, bound: nat)
    requires Distinct(h) && Distinct(added)
    requires forall x :: x in h ==> x < bound
    requires forall x :: x in added ==> bound <= x
    ensures Distinct(h + added)
  {
    var c := h + added;
    forall i, j | 0 <= i < j < |c| ensures c[i] != c[j] {
      if j < |h| {
        assert c[i] == h[i] && c[j] == h[j];
      } else if i < |h| {
        assert c[i] == h[i] && c[j] == added[j - |h|];
        assert c[i] in h && c[j] in added;
      } else {
        assert c[i] == added[i - |h|] && c[j] == added[j - |h|];
      }
    }
  }
}
