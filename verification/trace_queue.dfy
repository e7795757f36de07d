/**
 The trace queue (trace/trace.go): messages in arrival order, with one more list per direction.
 Each queued item keeps the element handles that the two lists gave it, and removal goes through
 those handles.
 */
module TraceQueue {
  import opened Bytes
  import opened Sequences

  datatype Dir = DirIn | DirOut

  datatype Msg = Msg(dir: Dir, ts: nat, data: seq<byte>)

  // ---------------------------------------------------------------- the abstract queue

  function InDir(dir: Dir): Msg -> bool {
    (m: Msg) => m.dir == dir
  }

  /** The messages of one direction, in order. */
  function Filter(msgs: seq<Msg>, dir: Dir): seq<Msg> {
    Select(msgs, InDir(dir))
  }

  /** The index of the first message of a direction, or the length when there is none. */
  function First(msgs: seq<Msg>, dir: Dir): (k: nat)
    ensures k <= |msgs|
    ensures forall i :: 0 <= i < k ==> msgs[i].dir != dir
    ensures k < |msgs| ==> msgs[k].dir == dir
  {
    if msgs == [] || msgs[0].dir == dir then 0 else 1 + First(msgs[1..], dir)
  }

  // ---------------------------------------------------------------- container/list

  class Element {
    const item: QueueItem

    constructor (item: QueueItem)
      ensures this.item == item
    {
      this.item := item;
    }
  }

  /** What the queue uses of container/list: a sequence of elements that are removed by identity. */
  class ItemList {
    var elems: seq<Element>

    constructor ()
      ensures elems == []
    {
      elems := [];
    }

    method PushBack(item: QueueItem) returns (e: Element)
      modifies this
      ensures fresh(e) && e.item == item
      ensures elems == old(elems) + [e]
    {
      e := new Element(item);
      elems := elems + [e];
    }

    method Front() returns (e: Element?)
      ensures e == if elems == [] then null else elems[0]
    {
      e := if elems == [] then null else elems[0];
    }

    method Remove(e: Element)
      requires e in elems && forall i, j :: 0 <= i < j < |elems| ==> elems[i] != elems[j]
      modifies this
      ensures forall k :: 0 <= k < |old(elems)| && old(elems)[k] == e ==> elems == RemoveAt(old(elems), k)
    {
      var k :| 0 <= k < |elems| && elems[k] == e;
      elems := RemoveAt(elems, k);
    }
  }

  class QueueItem {
    const msg: Msg
    var allE: Element?
    var dirE: Element?

    constructor (msg: Msg)
      ensures this.msg == msg
    {
      this.msg, allE, dirE := msg, null, null;
    }
  }

  // ---------------------------------------------------------------- the queue

  function Messages(items: seq<QueueItem>): (msgs: seq<Msg>)
    ensures |msgs| == |items| && forall i :: 0 <= i < |items| ==> msgs[i] == items[i].msg
  {
    seq(|items|, i requires 0 <= i < |items| => items[i].msg)
  }

  lemma MessagesAppend(items: seq<QueueItem>, qi: QueueItem)
    ensures Messages(items + [qi]) == Messages(items) + [qi.msg]
  {
  }

  lemma MessagesRemove(items: seq<QueueItem>, k: nat)
    requires k < |items|
    ensures Messages(RemoveAt(items, k)) == RemoveAt(Messages(items), k)
  {
  }

  function ItemInDir(dir: Dir): QueueItem -> bool {
    (qi: QueueItem) => qi.msg.dir == dir
  }

  /** The elements hold these items in this order, and the items know their elements. */
  ghost predicate LinkedAll(elems: seq<Element>, items: seq<QueueItem>)
    reads items
  {
    |elems| == |items| && forall i :: 0 <= i < |items| ==> elems[i].item == items[i] && items[i].allE == elems[i]
  }

  ghost predicate LinkedDir(elems: seq<Element>, items: seq<QueueItem>)
    reads items
  {
    |elems| == |items| && forall i :: 0 <= i < |items| ==> elems[i].item == items[i] && items[i].dirE == elems[i]
  }

  lemma LinkedAppend(elems: seq<Element>, items: seq<QueueItem>, qi: QueueItem)
    requires LinkedAll(elems, items) && qi.allE != null && qi.allE.item == qi
    ensures LinkedAll(elems + [qi.allE], items + [qi])
  {
  }

  lemma LinkedDirAppend(elems: seq<Element>, items: seq<QueueItem>, qi: QueueItem)
    requires LinkedDir(elems, items) && qi.dirE != null && qi.dirE.item == qi
    ensures LinkedDir(elems + [qi.dirE], items + [qi])
  {
  }

  lemma LinkedRemove(elems: seq<Element>, items: seq<QueueItem>, k: nat)
    requires LinkedAll(elems, items) && k < |items|
    ensures LinkedAll(RemoveAt(elems, k), RemoveAt(items, k))
  {
  }

  lemma LinkedDirTail(elems: seq<Element>, items: seq<QueueItem>)
    requires LinkedDir(elems, items) && items != []
    ensures RemoveAt(elems, 0) == elems[1..] && LinkedDir(elems[1..], items[1..])
  {
  }

  /** No item is queued twice, and the direction lists are the two selections of the whole. */
  ghost predicate Consistent(items: seq<QueueItem>, ins: seq<QueueItem>, outs: seq<QueueItem>) {
    && (forall i, j :: 0 <= i < j < |items| ==> items[i] != items[j])
    && ins == Select(items, ItemInDir(DirIn))
    && outs == Select(items, ItemInDir(DirOut))
  }

  lemma ConsistentAppend(items: seq<QueueItem>, ins: seq<QueueItem>, outs: seq<QueueItem>, qi: QueueItem)
    requires Consistent(items, ins, outs) && qi !in items
    ensures qi !in ins && qi !in outs
    ensures if qi.msg.dir == DirIn then Consistent(items + [qi], ins + [qi], outs)
            else Consistent(items + [qi], ins, outs + [qi])
  {
    SelectMembers(items, ItemInDir(DirIn));
    SelectMembers(items, ItemInDir(DirOut));
    SelectAppend(items, qi, ItemInDir(DirIn));
    SelectAppend(items, qi, ItemInDir(DirOut));
  }

  lemma ConsistentRemove(items: seq<QueueItem>, ins: seq<QueueItem>, outs: seq<QueueItem>, k: nat)
    requires Consistent(items, ins, outs) && k < |items|
    requires forall i :: 0 <= i < k ==> items[i].msg.dir != items[k].msg.dir
    ensures if items[k].msg.dir == DirIn
            then ins != [] && ins[0] == items[k] && Consistent(RemoveAt(items, k), ins[1..], outs)
            else outs != [] && outs[0] == items[k] && Consistent(RemoveAt(items, k), ins, outs[1..])
  {
    SelectRemove(items, k, ItemInDir(DirIn));
    SelectRemove(items, k, ItemInDir(DirOut));
  }

  /** The head of a direction list is the first item of that direction. */
  lemma FirstOfDir(items: seq<QueueItem>, ins: seq<QueueItem>, outs: seq<QueueItem>, dir: Dir)
    requires Consistent(items, ins, outs)
    ensures var k, mine := First(Messages(items), dir), if dir == DirIn then ins else outs;
            if k == |items| then mine == []
            else mine != [] && mine[0] == items[k] && items[k].msg.dir == dir &&
                 forall i :: 0 <= i < k ==> items[i].msg.dir != dir
  {
    var k := First(Messages(items), dir);
    assert forall i :: 0 <= i < |items| ==> items[i].msg == Messages(items)[i];
    if k == |items| {
      SelectNone(items, ItemInDir(dir));
    } else {
      SelectRemove(items, k, ItemInDir(dir));
    }
  }

  lemma ConsistentDistinct(items: seq<QueueItem>, ins: seq<QueueItem>, outs: seq<QueueItem>)
    requires Consistent(items, ins, outs)
    ensures forall i, j :: 0 <= i < j < |items| ==> items[i] != items[j]
    ensures forall i, j :: 0 <= i < j < |ins| ==> ins[i] != ins[j]
    ensures forall i, j :: 0 <= i < j < |outs| ==> outs[i] != outs[j]
  {
    SelectDistinct(items, ItemInDir(DirIn));
    SelectDistinct(items, ItemInDir(DirOut));
  }

  lemma LinkedDistinct(elems: seq<Element>, items: seq<QueueItem>)
    requires |elems| == |items| && forall i :: 0 <= i < |items| ==> elems[i].item == items[i]
    requires forall i, j :: 0 <= i < j < |items| ==> items[i] != items[j]
    ensures forall i, j :: 0 <= i < j < |elems| ==> elems[i] != elems[j]
  {
  }

  class Queue {
    const all: ItemList
    const ins: ItemList
    const outs: ItemList
    // the items behind the three lists
    ghost var Items: seq<QueueItem>
    ghost var Ins: seq<QueueItem>
    ghost var Outs: seq<QueueItem>

    ghost predicate Valid()
      reads this, all, ins, outs, Items, Ins, Outs
    {
      && all != ins && all != outs && ins != outs
      && LinkedAll(all.elems, Items)
      && LinkedDir(ins.elems, Ins)
      && LinkedDir(outs.elems, Outs)
      && Consistent(Items, Ins, Outs)
    }

    ghost function Contents(): seq<Msg>
      reads this
    {
      Messages(Items)
    }

    constructor ()
      ensures Valid() && Contents() == []
      ensures fresh(all) && fresh(ins) && fresh(outs)
    {
      all := new ItemList();
      ins := new ItemList();
      outs := new ItemList();
      Items, Ins, Outs := [], [], [];
    }

    function DirList(dir: Dir): ItemList {
      match dir
      case DirIn => ins
      case DirOut => outs
    }

    method Enqueue(msg: Msg)
      requires Valid()
      modifies this, all, ins, outs
      ensures Valid() && Contents() == old(Contents()) + [msg]
    {
      hide Consistent, LinkedAll, LinkedDir, Messages;
      ghost var elems, dirElems := all.elems, DirList(msg.dir).elems;
      var qi := new QueueItem(msg);
      ConsistentAppend(Items, Ins, Outs, qi);
      Link(qi);
      LinkedAppend(elems, Items, qi);
      LinkedDirAppend(dirElems, if msg.dir == DirIn then Ins else Outs, qi);
      MessagesAppend(Items, qi);
      Items := Items + [qi];
      if msg.dir == DirIn {
        Ins := Ins + [qi];
      } else {
        Outs := Outs + [qi];
      }
    }

    /** Puts the item at the end of its two lists and records the handles. */
    method Link(qi: QueueItem)
      requires all != ins && all != outs
      modifies all, DirList(qi.msg.dir), qi
      ensures qi.allE != null && qi.allE.item == qi && all.elems == old(all.elems) + [qi.allE]
      ensures qi.dirE != null && qi.dirE.item == qi
      ensures DirList(qi.msg.dir).elems == old(DirList(qi.msg.dir).elems) + [qi.dirE]
    {
      qi.allE := all.PushBack(qi);
      qi.dirE := DirList(qi.msg.dir).PushBack(qi);
    }

    method Head() returns (msg: Option<Msg>)
      requires Valid()
      ensures msg == if Contents() == [] then None else Some(Contents()[0])
    {
      var qie := all.Front();
      if qie == null {
        return None;
      }
      msg := Some(qie.item.msg);
    }

    /** Unlinks the first item of a direction from both lists, through the item's own handles. */
    method Unlink(qi: QueueItem, ghost k: nat)
      requires Valid()
      requires k < |Items| && Items[k] == qi && forall i :: 0 <= i < k ==> Items[i].msg.dir != qi.msg.dir
      modifies this, all, ins, outs
      ensures Valid() && Items == RemoveAt(old(Items), k)
    {
      hide Consistent, RemoveAt;
      ConsistentDistinct(Items, Ins, Outs);
      ConsistentRemove(Items, Ins, Outs, k);
      LinkedDistinct(all.elems, Items);
      LinkedDistinct(ins.elems, Ins);
      LinkedDistinct(outs.elems, Outs);
      var list := DirList(qi.msg.dir);
      ghost var allElems, elems := all.elems, list.elems;
      assert all.elems[k] == qi.allE && elems[0] == qi.dirE;
      LinkedDirTail(elems, if qi.msg.dir == DirIn then Ins else Outs);
      all.Remove(qi.allE);
      assert list.elems == elems;
      list.Remove(qi.dirE);
      assert list.elems == elems[1..];
      LinkedRemove(allElems, Items, k);
      Items := RemoveAt(Items, k);
      if qi.msg.dir == DirIn {
        Ins := Ins[1..];
      } else {
        Outs := Outs[1..];
      }
    }

    method Dequeue() returns (msg: Option<Msg>)
      requires Valid()
      modifies this, all, ins, outs
      ensures Valid()
      ensures old(Contents()) == [] ==> msg == None && Contents() == []
      ensures old(Contents()) != [] ==> msg == Some(old(Contents())[0]) && Contents() == old(Contents())[1..]
    {
      var qie := all.Front();
      if qie == null {
        return None;
      }
      var qi := qie.item;
      Unlink(qi, 0);
      msg := Some(qi.msg);
    }

    method DequeueDir(dir: Dir) returns (msg: Option<Msg>)
      requires Valid()
      modifies this, all, ins, outs
      ensures Valid()
      ensures var was, k := old(Contents()), First(old(Contents()), dir);
              if k == |was| then msg == None && Contents() == was
              else msg == Some(was[k]) && Contents() == RemoveAt(was, k)
    {
      ghost var k := First(Contents(), dir);
      FirstOfDir(Items, Ins, Outs, dir);
      if k < |Items| {
        MessagesRemove(Items, k);
      }
      hide Consistent, First, RemoveAt, LinkedAll;
      var qie := DirList(dir).Front();
      if qie == null {
        return None;
      }
      var qi := qie.item;
      Unlink(qi, k);
      msg := Some(qi.msg);
    }
  }
}
