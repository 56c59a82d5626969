/** The binary heap of daemon/scheduler.go: the requestQueue methods under the sift loops of container/heap. */
module RequestQueue {

  datatype Request = Request(priority: int, prompt: string, model: string, justification: string, seqNo: int)

  predicate Less(a: Request, b: Request) {
    if a.priority != b.priority then a.priority < b.priority else a.seqNo < b.seqNo
  }

  function Parent(k: nat): nat {
    if k == 0 then 0 else (k - 1) / 2
  }

  // Entry k does not precede its parent.
  ghost predicate Placed(q: seq<Request>, k: nat)
    requires k < |q|
  {
    !Less(q[k], q[Parent(k)])
  }

  ghost predicate Heap(q: seq<Request>) {
    forall k: nat | k < |q| :: Placed(q, k)
  }

  // While sifting: only entry j may precede its parent.
  ghost predicate HeapAbove(q: seq<Request>, j: nat) {
    && (forall k: nat | k < |q| && k != j :: Placed(q, k))
    && Bridged(q, |q|, j)
  }

  // While sifting: only children of i may precede their parent, among the first n.
  ghost predicate HeapBelow(q: seq<Request>, n: nat, i: nat)
    requires n <= |q|
  {
    && (forall k: nat | k < n && Parent(k) != i :: Placed(q, k))
    && Bridged(q, n, i)
  }

  // The children of i do not precede the parent of i.
  ghost predicate Bridged(q: seq<Request>, n: nat, i: nat)
    requires n <= |q|
  {
    forall k: nat | k < n && i != 0 && Parent(k) == i :: !Less(q[k], q[Parent(i)])
  }

  function Swapped(q: seq<Request>, i: nat, j: nat): (r: seq<Request>)
    requires i < |q| && j < |q|
    ensures |r| == |q| && multiset(r) == multiset(q)
  {
    q[i := q[j]][j := q[i]]
  }

  lemma UpStep(q: seq<Request>, j: nat)
    requires j < |q| && HeapAbove(q, j) && Less(q[j], q[Parent(j)])
    ensures HeapAbove(Swapped(q, Parent(j), j), Parent(j))
  {
    var i, s := Parent(j), Swapped(q, Parent(j), j);
    forall k: nat | k < |s| && k != i ensures Placed(s, k) {
      assert k != j ==> Placed(q, k);
      assert i != j ==> Placed(q, i);
    }
    forall k: nat | k < |s| && i != 0 && Parent(k) == i ensures !Less(s[k], s[Parent(i)]) {
      assert Placed(q, i);
      assert k != j ==> Placed(q, k);
    }
  }

  lemma UpDone(q: seq<Request>, j: nat)
    requires j < |q| && HeapAbove(q, j) && !Less(q[j], q[Parent(j)])
    ensures Heap(q)
  {
    forall k: nat | k < |q| ensures Placed(q, k) {}
  }

  // The child of i that goes first.
  ghost predicate FirstChild(q: seq<Request>, n: nat, i: nat, j: nat)
    requires n <= |q|
  {
    && i < j < n && Parent(j) == i
    && forall k: nat | i < k < n && Parent(k) == i :: !Less(q[k], q[j])
  }

  lemma DownStep(q: seq<Request>, n: nat, i: nat, j: nat)
    requires n <= |q| && HeapBelow(q, n, i) && FirstChild(q, n, i, j) && Less(q[j], q[i])
    ensures HeapBelow(Swapped(q, i, j), n, j)
  {
    var s := Swapped(q, i, j);
    forall k: nat | k < n && Parent(k) != j ensures Placed(s, k) {
      if Parent(k) != i && k != i {
        assert Placed(q, k);
      }
    }
    forall k: nat | k < n && j != 0 && Parent(k) == j ensures !Less(s[k], s[Parent(j)]) {
      assert Placed(q, k);
    }
  }

  lemma DownDone(q: seq<Request>, n: nat, i: nat)
    requires n <= |q| && HeapBelow(q, n, i)
    requires forall k: nat | i < k < n && Parent(k) == i :: !Less(q[k], q[i])
    ensures Heap(q[..n])
  {
    forall k: nat | k < n ensures Placed(q[..n], k) {
      if Parent(k) != i {
        assert Placed(q, k);
      }
    }
  }

  // Nothing precedes the root.
  lemma {:induction false} RootIsFirst(q: seq<Request>, k: nat)
    requires Heap(q) && k < |q|
    ensures !Less(q[k], q[0])
    decreases k
  {
    assert Placed(q, k);
    if k != 0 {
      RootIsFirst(q, Parent(k));
    }
  }

  class Queue {
    var items: seq<Request>

    constructor ()
      ensures items == []
    {
      items := [];
    }

    method Swap(i: nat, j: nat)
      requires i < |items| && j < |items|
      modifies this
      ensures items == Swapped(old(items), i, j)
    {
      items := Swapped(items, i, j);
    }

    method Up(j0: nat)
      requires j0 < |items| && HeapAbove(items, j0)
      modifies this
      ensures Heap(items) && multiset(items) == multiset(old(items))
    {
      var j: nat := j0;
      while true
        invariant j < |items| && HeapAbove(items, j)
        invariant multiset(items) == multiset(old(items))
        decreases j
      {
        var i: nat := Parent(j);
        if i == j || !Less(items[j], items[i]) {
          UpDone(items, j);
          break;
        }
        UpStep(items, j);
        Swap(i, j);
        j := i;
      }
    }

    // The child of i that comes first.
    method Child(n: nat, i: nat) returns (j: nat)
      requires 2 * i + 1 < n <= |items|
      ensures FirstChild(items, n, i, j)
    {
      var j1 := 2 * i + 1;
      j := j1;
      var j2 := j1 + 1;
      if j2 < n && Less(items[j2], items[j1]) {
        j := j2;
      }
    }

    // Sifts the root down within the first n items.
    method Down(n: nat)
      requires n <= |items| && HeapBelow(items, n, 0)
      modifies this
      ensures |items| == |old(items)| && items[n..] == old(items)[n..]
      ensures Heap(items[..n]) && multiset(items) == multiset(old(items))
    {
      var i: nat := 0;
      while true
        invariant (i < n || n == 0) && |items| == |old(items)| && HeapBelow(items, n, i)
        invariant items[n..] == old(items)[n..] && multiset(items) == multiset(old(items))
        decreases n - i
      {
        if 2 * i + 1 >= n {
          DownDone(items, n, i);
          break;
        }
        var j := Child(n, i);
        if !Less(items[j], items[i]) {
          DownDone(items, n, i);
          break;
        }
        DownStep(items, n, i, j);
        Swap(i, j);
        i := j;
      }
    }

    method Push(r: Request)
      requires Heap(items)
      modifies this
      ensures Heap(items) && multiset(items) == multiset(old(items)) + multiset{r}
    {
      ghost var q := items;
      items := items + [r];
      forall k: nat | k < |q| ensures Placed(items, k) {
        assert Placed(q, k);
      }
      Up(|items| - 1);
    }

    // heap.Pop: swap the ends, sift down all but the last, and take the last.
    method Pop() returns (r: Request)
      requires Heap(items) && items != []
      modifies this
      ensures Heap(items) && multiset(old(items)) == multiset(items) + multiset{r}
      ensures r == old(items)[0] && forall x | x in old(items) :: !Less(x, r)
    {
      forall k: nat | k < |items| ensures !Less(items[k], items[0]) {
        RootIsFirst(items, k);
      }
      ghost var q := items;
      var n := |items| - 1;
      Swap(0, n);
      forall k: nat | k < n && Parent(k) != 0 ensures Placed(items, k) {
        assert Placed(q, k);
      }
      Down(n);
      r := items[n];
      assert items[n..] == [r] && items == items[..n] + [r];
      items := items[..n];
    }
  }
}
