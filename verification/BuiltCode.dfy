/** What the verifier sees of code the builder has finished. */
module BuiltCode {
  import opened Words
  import opened Bytecode
  import opened Encoding
  import opened Builder
  import opened CodeBuilders
  import V = Verifier

  /** Each item is an instruction of the listing. */
  lemma ItemListed(items: seq<Item>, code: seq<byte>, labels: seq<u32>, k: nat)
    requires Finished(items, code, labels) && k < |items|
    ensures var ls := Disassemble(code);
            && V.Decodes(ls, items[k].at) && V.At(ls, items[k].at).opcode == items[k].opcode
            && V.Next(ls, items[k].at) == if k + 1 < |items| then items[k + 1].at else |code|
  {
    hide Decode, Finished;
    DecodesToWhatWasWritten(items, code, labels, k);
    InsideCode(items, code, labels, k);
  }

  lemma InsideCode(items: seq<Item>, code: seq<byte>, labels: seq<u32>, k: nat)
    requires Finished(items, code, labels) && k < |items|
    ensures items[k].at < |code|
  {
    hide Encode;
    assert Holds(code, items[k]);
  }

  /** The sweep of the verifier stops at every item, and at the end. */
  lemma {:induction false} SweepReaches(items: seq<Item>, code: seq<byte>, labels: seq<u32>, k: nat)
    requires Finished(items, code, labels) && k <= |items|
    ensures V.Follows(Disassemble(code), 0, if k < |items| then items[k].at else |code|)
  {
    hide Decode, Finished, V.Follows, Disassemble;
    StartsAtZero(items, code, labels);
    if k == 0 {
      FollowsItself(Disassemble(code));
    } else {
      SweepReaches(items, code, labels, k - 1);
      ItemListed(items, code, labels, k - 1);
      V.FollowsExtends(Disassemble(code), 0, items[k - 1].at);
    }
  }

  lemma StartsAtZero(items: seq<Item>, code: seq<byte>, labels: seq<u32>)
    requires Finished(items, code, labels)
    ensures if items == [] then code == [] else items[0].at == 0
  {}

  lemma FollowsItself(ls: Listing)
    ensures V.Follows(ls, 0, 0)
  {}

  /** The instructions the verifier finds in finished code are the items, no more and no less. */
  lemma BoundariesAreItems(items: seq<Item>, code: seq<byte>, labels: seq<u32>, p: int)
    requires Finished(items, code, labels)
    ensures V.Boundary(Disassemble(code), p) <==> exists k :: 0 <= k < |items| && items[k].at == p
    ensures V.Follows(Disassemble(code), 0, |code|)
  {
    hide Decode, Finished, V.Follows, Disassemble;
    var ls := Disassemble(code);
    SweepReaches(items, code, labels, |items|);
    if k :| 0 <= k < |items| && items[k].at == p {
      SweepReaches(items, code, labels, k);
      ItemListed(items, code, labels, k);
    }
    if V.Boundary(ls, p) { FindItem(items, code, labels, p, |items|); }
  }

  lemma {:induction false} FindItem(items: seq<Item>, code: seq<byte>, labels: seq<u32>, p: int, n: nat)
    requires Finished(items, code, labels) && n <= |items| && V.Boundary(Disassemble(code), p)
    requires p < if n < |items| then items[n].at else |code|
    ensures exists k :: 0 <= k < n && items[k].at == p
    decreases n
  {
    hide *;
    StartsAtZero(items, code, labels);
    NotNegative(Disassemble(code), p);
    if n > 0 {
      ItemBoundary(items, code, labels, n - 1);
      if items[n - 1].at < p {
        NoneInside(Disassemble(code), items[n - 1].at, p);
      } else if p < items[n - 1].at {
        FindItem(items, code, labels, p, n - 1);
      }
    }
  }

  lemma NotNegative(ls: Listing, p: int)
    requires V.Boundary(ls, p)
    ensures p >= 0
  {}

  lemma ItemBoundary(items: seq<Item>, code: seq<byte>, labels: seq<u32>, k: nat)
    requires Finished(items, code, labels) && k < |items|
    ensures var ls := Disassemble(code);
            V.Boundary(ls, items[k].at) && V.Next(ls, items[k].at) == if k + 1 < |items| then items[k + 1].at else |code|
  {
    hide Decode, Finished, V.Follows, Disassemble;
    SweepReaches(items, code, labels, k);
    ItemListed(items, code, labels, k);
  }

  lemma NoneInside(ls: Listing, p: int, q: int)
    requires V.Boundary(ls, p) && V.Boundary(ls, q) && p < q
    ensures V.Next(ls, p) <= q
  {
    V.NothingBetween(ls, p, q);
  }

  /** The verifier's target of a branch is the position its label was bound to, whenever
      32 signed bits hold the way there. */
  lemma TargetsAreLabels(items: seq<Item>, code: seq<byte>, labels: seq<u32>, k: nat)
    requires Finished(items, code, labels) && k < |items| && items[k].target.Some?
    ensures var ls, l := Disassemble(code), items[k].target.value;
            && l < |labels| && V.Decodes(ls, items[k].at) && IsBranch(V.At(ls, items[k].at).opcode)
            && |V.At(ls, items[k].at).signed| == 1
            && (V.Target(ls, items[k].at) == labels[l] <==> -0x8000_0000 <= labels[l] - items[k].at < 0x8000_0000)
            && (V.Boundary(ls, labels[l]) || labels[l] == |code|)
  {
    hide Decode, Disassemble;
    BranchesReachTheirLabels(items, code, labels, k);
    ItemListed(items, code, labels, k);
    assert Lands(items[k], labels);
    BoundariesAreItems(items, code, labels, labels[items[k].target.value]);
  }
}
