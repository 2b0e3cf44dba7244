/** The fragments of a record, kept in the order received until the last one. */
module Fragments {
  import opened SList
  import opened Bytes

  /** struct rpc_fragment; its data is a copy. */
  type Fragment = Node<seq<byte>>

  /** The record received so far. */
  function Data(fragments: seq<Fragment>): seq<byte> {
    if fragments == [] then [] else fragments[0].item + Data(fragments[1..])
  }

  lemma {:induction false} DataSeq(a: seq<Fragment>, b: seq<Fragment>)
    ensures Data(a + b) == Data(a) + Data(b)
  {
    if a == [] {
      assert a + b == b;
    } else {
      DataSeq(a[1..], b);
      assert (a + b)[0] == a[0] && (a + b)[1..] == a[1..] + b;
    }
  }

  class Reassembly {
    const fragments: List<seq<byte>>
    var fragmentsSize: nat
    var freed: seq<Fragment>

    constructor ()
      ensures Valid() && Data(fragments.spine) == [] && freed == [] && fresh(fragments)
    {
      fragments := new List();
      fragmentsSize, freed := 0, [];
    }

    /** The size is that of the data, and no fragment in the list is freed. */
    ghost predicate Valid()
      reads this, fragments, fragments.spine
    {
      && fragments.Valid()
      && fragmentsSize == |Data(fragments.spine)|
      && forall f :: f in fragments.spine ==> f !in freed
    }

    /** rpc_add_fragment */
    method Add(data: seq<byte>)
      requires Valid()
      modifies this`fragmentsSize, fragments, fragments.spine
      ensures Valid() && Data(fragments.spine) == old(Data(fragments.spine)) + data
      ensures |fragments.spine| == |old(fragments.spine)| + 1 && old(fragments.spine) < fragments.spine
    {
      var fragment := new Node<seq<byte>>(data);
      fragments.AddEnd(fragment);
      DataSeq(old(fragments.spine), [fragment]);
      assert Data([fragment]) == data + Data([]);
      fragmentsSize := fragmentsSize + |data|;
    }

    /** rpc_free_all_fragments: every fragment is freed once, in order, and none
        is read afterwards. */
    method FreeAll()
      requires Valid()
      modifies this`fragmentsSize, this`freed, fragments
      ensures Valid() && fragments.spine == [] && fragmentsSize == 0
      ensures freed == old(freed) + old(fragments.spine)
    {
      ghost var all, i := fragments.spine, 0;
      while fragments.head != null
        invariant 0 <= i <= |all| && fragments.spine == all[i..] && fragments.Valid()
        invariant freed == old(freed) + all[..i]
        invariant forall f :: f in fragments.spine ==> f !in freed
        decreases |all| - i
      {
        var fragment := fragments.head;
        assert fragment == all[i] && fragment !in freed;
        PopHead();
        assert all[i..][1..] == all[i + 1..];
        freed := freed + [fragment];
        i := i + 1;
      }
      fragmentsSize := 0;
    }

    /** rpc->fragments = fragment->next */
    method PopHead()
      requires fragments.Valid() && fragments.spine != []
      modifies fragments
      ensures fragments.Valid() && fragments.spine == old(fragments.spine)[1..]
      ensures old(fragments.spine)[0] !in fragments.spine
    {
      ghost var all := fragments.spine;
      assert all[0].next == After(all, 0);
      fragments.head := fragments.head.next;
      fragments.spine := all[1..];
      forall k | 0 <= k < |all| - 1
        ensures all[1..][k].next == After(all[1..], k)
      {
        assert all[1..][k] == all[k + 1] && all[k + 1].next == After(all, k + 1);
      }
    }
  }
}
