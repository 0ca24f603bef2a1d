/** The intrusive singly linked list: next pointers are words written into the
    listed memory itself, and every operation is proved against an operation on
    the sequence of listed addresses. */
module IntrusiveList {

  import opened Options

  /** The words of raw memory that next pointers have been written to.
      A stored 0 is the null pointer. */
  class Memory {
    var words: map<nat, nat>

    constructor ()
      ensures words == map[]
    {
      words := map[];
    }
  }

  function First(s: seq<nat>): nat {
    if s == [] then 0 else s[0]
  }

  function Successor(s: seq<nat>, i: nat): nat
    requires i < |s|
  {
    if i + 1 < |s| then s[i + 1] else 0
  }

  /** Following next pointers from `head` visits exactly the addresses of s. */
  ghost predicate Linked(words: map<nat, nat>, head: nat, s: seq<nat>) {
    && head == First(s)
    && (forall i :: 0 <= i < |s| ==> s[i] != 0)
    && (forall i :: 0 <= i < |s| ==> s[i] in words && words[s[i]] == Successor(s, i))
  }

  ghost predicate Distinct(s: seq<nat>) {
    forall i, j :: 0 <= i < j < |s| ==> s[i] != s[j]
  }

  ghost predicate Ascending(s: seq<nat>) {
    forall i, j :: 0 <= i < j < |s| ==> s[i] < s[j]
  }

  /** The two memories agree outside `touched`. */
  ghost predicate OnlyAt(before: map<nat, nat>, after: map<nat, nat>, touched: set<nat>) {
    forall a :: a !in touched ==>
      && (a in before <==> a in after)
      && (a in before ==> before[a] == after[a])
  }

  ghost function Nodes(s: seq<nat>): set<nat> {
    set a | a in s
  }

  /** s without the element at index k. */
  function Without(s: seq<nat>, k: nat): seq<nat>
    requires k < |s|
  {
    s[..k] + s[k + 1..]
  }

  /** Where sorted insertion puts p: in front of the first larger element. */
  function InsertAt(s: seq<nat>, p: nat): (k: nat)
    ensures k <= |s|
    ensures forall i :: 0 <= i < k ==> s[i] <= p
    ensures k < |s| ==> s[k] > p
  {
    if s == [] || s[0] > p then 0 else 1 + InsertAt(s[1..], p)
  }

  function SortedInsert(s: seq<nat>, p: nat): seq<nat> {
    InsertedAt(s, InsertAt(s, p), p)
  }

  /** A chain that ends cannot pass through an address twice. */
  lemma LinkedAcyclic(words: map<nat, nat>, head: nat, s: seq<nat>)
    requires Linked(words, head, s)
    ensures Distinct(s)
  {
    forall i, j | 0 <= i < j < |s| ensures s[i] != s[j] {
      NoRepeat(words, head, s, i, j);
    }
  }

  lemma {:induction false} NoRepeat(words: map<nat, nat>, head: nat, s: seq<nat>, i: nat, j: nat)
    requires Linked(words, head, s) && i < j < |s|
    ensures s[i] != s[j]
    decreases |s| - j
  {
    if s[i] == s[j] {
      assert Successor(s, i) == Successor(s, j);
      if j + 1 < |s| {
        NoRepeat(words, head, s, i + 1, j + 1);
      }
    }
  }

  /** Writes elsewhere leave a chain alone. */
  lemma LinkedFrame(before: map<nat, nat>, after: map<nat, nat>, touched: set<nat>, head: nat, s: seq<nat>)
    requires Linked(before, head, s) && OnlyAt(before, after, touched)
    requires forall a :: a in s ==> a !in touched
    ensures Linked(after, head, s)
  {
  }

  lemma SortedInsertElements(s: seq<nat>, p: nat)
    ensures forall a :: a in SortedInsert(s, p) <==> a in s || a == p
  {
  }

  /** On an ascending list, sorted insertion of a new element stays ascending. */
  lemma SortedInsertAscending(s: seq<nat>, p: nat)
    requires Ascending(s) && p !in s
    ensures Ascending(SortedInsert(s, p))
  {
  }

  lemma WithoutElements(s: seq<nat>, k: nat)
    requires Distinct(s) && k < |s|
    ensures forall a :: a in Without(s, k) <==> a in s && a != s[k]
    ensures Distinct(Without(s, k))
    ensures Ascending(s) ==> Ascending(Without(s, k))
  {
  }

  function InsertedAt(s: seq<nat>, k: nat, p: nat): seq<nat>
    requires k <= |s|
  {
    s[..k] + [p] + s[k..]
  }

  lemma InsertedFacts(s: seq<nat>, k: nat, p: nat, i: nat)
    requires 1 <= k <= |s| && i <= |s|
    ensures |InsertedAt(s, k, p)| == |s| + 1
    ensures InsertedAt(s, k, p)[i] == if i < k then s[i] else if i == k then p else s[i - 1]
    ensures Successor(InsertedAt(s, k, p), i) ==
      if i + 1 < k then s[i + 1] else if i + 1 == k then p else if i < |s| then s[i] else 0
  {
  }

  /** Redirecting one link inserts p behind the element at index k - 1. */
  lemma LinkInsert(words: map<nat, nat>, head: nat, s: seq<nat>, k: nat, p: nat)
    requires Linked(words, head, s) && 1 <= k <= |s|
    requires p != 0 && p !in s
    ensures Linked(words[p := Successor(s, k - 1)][s[k - 1] := p], head, InsertedAt(s, k, p))
  {
    hide InsertedAt;
    LinkedAcyclic(words, head, s);
    var words' := words[p := Successor(s, k - 1)][s[k - 1] := p];
    var s' := InsertedAt(s, k, p);
    InsertedFacts(s, k, p, 0);
    forall i | 0 <= i < |s'|
      ensures s'[i] != 0 && s'[i] in words' && words'[s'[i]] == Successor(s', i)
    {
      InsertedFacts(s, k, p, i);
    }
  }

  lemma WithoutAt(s: seq<nat>, k: nat, i: nat)
    requires k < |s| && i < |s| - 1
    ensures |Without(s, k)| == |s| - 1
    ensures Without(s, k)[i] == s[if i < k then i else i + 1]
    ensures Successor(Without(s, k), i) ==
      if i + 1 < k then s[i + 1] else if i + 2 < |s| then s[i + 2] else 0
  {
  }

  /** Redirecting one link takes the element at index k out. */
  lemma LinkRemove(words: map<nat, nat>, head: nat, s: seq<nat>, k: nat)
    requires Linked(words, head, s) && 1 <= k < |s|
    ensures Linked(words[s[k - 1] := Successor(s, k)], head, Without(s, k))
  {
    hide Without;
    LinkedAcyclic(words, head, s);
    var words' := words[s[k - 1] := Successor(s, k)];
    var s' := Without(s, k);
    WithoutAt(s, k, 0);
    forall i | 0 <= i < |s'|
      ensures s'[i] != 0 && s'[i] in words' && words'[s'[i]] == Successor(s', i)
    {
      WithoutAt(s, k, i);
    }
  }

  class IntrusiveLinkedList {
    const mem: Memory
    var next: nat
    ghost var contents: seq<nat>

    ghost predicate Valid()
      reads this, mem
    {
      Linked(mem.words, next, contents)
    }

    constructor (mem: Memory)
      ensures Valid() && this.mem == mem && contents == []
    {
      this.mem := mem;
      next := 0;
      contents := [];
    }

    method IsNone() returns (r: bool)
      requires Valid()
      ensures r == (contents == [])
    {
      r := next == 0;
    }

    method Push(ptr: nat)
      requires Valid()
      requires ptr != 0 && ptr !in contents
      modifies this, mem
      ensures Valid()
      ensures contents == [ptr] + old(contents)
      ensures OnlyAt(old(mem.words), mem.words, {ptr})
    {
      mem.words := mem.words[ptr := next];
      next := ptr;
      contents := [ptr] + contents;
    }

    method PushBack(ptr: nat)
      requires Valid()
      requires ptr != 0 && ptr !in contents
      modifies this, mem
      ensures Valid()
      ensures contents == old(contents) + [ptr]
      ensures OnlyAt(old(mem.words), mem.words, Nodes(old(contents)) + {ptr})
    {
      ghost var s := contents;
      mem.words := mem.words[ptr := 0];
      var last, cur := 0, next;
      ghost var k := 0;
      while cur != 0
        invariant k <= |s|
        invariant cur == if k < |s| then s[k] else 0
        invariant last == if k == 0 then 0 else s[k - 1]
        invariant mem.words == old(mem.words)[ptr := 0]
        decreases |s| - k
      {
        assert mem.words[cur] == Successor(s, k);
        last, cur := cur, mem.words[cur];
        k := k + 1;
      }
      assert k == |s|;
      contents := s + [ptr];
      if last == 0 {
        next := ptr;
      } else {
        LinkInsert(old(mem.words), next, s, k, ptr);
        assert InsertedAt(s, k, ptr) == contents;
        assert last in Nodes(s);
        mem.words := mem.words[last := ptr];
      }
    }

    method Pop() returns (r: Option<nat>)
      requires Valid()
      modifies this
      ensures Valid()
      ensures old(contents) == [] ==> r == None && contents == []
      ensures old(contents) != [] ==> r == Some(old(contents)[0]) && contents == old(contents)[1..]
    {
      if next == 0 {
        return None;
      }
      r := Some(next);
      next := mem.words[next];
      contents := contents[1..];
    }

    method RemoveIf(ptr: nat) returns (found: bool)
      requires Valid()
      modifies this, mem
      ensures Valid()
      ensures found == (ptr in old(contents))
      ensures !found ==> contents == old(contents)
      ensures found ==> exists k :: 0 <= k < |old(contents)| && old(contents)[k] == ptr
                                    && contents == Without(old(contents), k)
      ensures OnlyAt(old(mem.words), mem.words, Nodes(old(contents)))
    {
      ghost var s := contents;
      if next != 0 && next == ptr {
        next := mem.words[next];
        contents := s[1..];
        assert contents == Without(s, 0);
        return true;
      }
      var cur := next;
      ghost var k := 0;
      while cur != 0
        invariant k <= |s|
        invariant cur == if k < |s| then s[k] else 0
        invariant forall i :: 0 <= i <= k && i < |s| ==> s[i] != ptr
        invariant contents == s && next == First(s) && mem.words == old(mem.words)
        decreases |s| - k
      {
        var after := mem.words[cur];
        assert after == Successor(s, k);
        if after != 0 && after == ptr {
          LinkRemove(mem.words, next, s, k + 1);
          assert cur in Nodes(s);
          mem.words := mem.words[cur := mem.words[after]];
          contents := Without(s, k + 1);
          return true;
        }
        cur := after;
        k := k + 1;
      }
      return false;
    }

    method AddWithSort(ptr: nat)
      requires Valid()
      requires ptr != 0 && ptr !in contents
      modifies this, mem
      ensures Valid()
      ensures contents == SortedInsert(old(contents), ptr)
      ensures OnlyAt(old(mem.words), mem.words, Nodes(old(contents)) + {ptr})
    {
      ghost var s := contents;
      contents := SortedInsert(s, ptr);
      if next == 0 || next > ptr {
        mem.words := mem.words[ptr := next];
        next := ptr;
        assert contents == [ptr] + s;
        return;
      }
      var prev := next;
      ghost var k := 0;
      while mem.words[prev] != 0 && mem.words[prev] <= ptr
        invariant k < |s| && prev == s[k]
        invariant forall i :: 0 <= i <= k ==> s[i] <= ptr
        decreases |s| - k
      {
        assert mem.words[prev] == Successor(s, k);
        prev := mem.words[prev];
        k := k + 1;
      }
      assert mem.words[prev] == Successor(s, k);
      InsertAtUnique(s, ptr, k + 1);
      LinkInsert(mem.words, next, s, k + 1, ptr);
      assert prev in Nodes(s);
      mem.words := mem.words[ptr := mem.words[prev]];
      mem.words := mem.words[prev := ptr];
    }
  }

  lemma {:induction false} InsertAtUnique(s: seq<nat>, p: nat, k: nat)
    requires k <= |s|
    requires forall i :: 0 <= i < k ==> s[i] <= p
    requires k < |s| ==> s[k] > p
    ensures InsertAt(s, p) == k
  {
  }
}
