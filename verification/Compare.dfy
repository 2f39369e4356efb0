/**
  Comparing a stored payload with a key (src/ibtree.c, src/btree_node.c).
  The payload is seen one window at a time: the part in the cell, then each overflow page.
*/
module Compare {
  import opened Bytes
  import opened Node
  import opened Pager
  import opened Overflow

  /** What one call of ibtree_compare reports: the order so far, the bytes compared, and the key bytes left. */
  datatype Report = Report(result: int, compared: nat, remaining: nat)

  function Min(a: nat, b: nat): nat { if a < b then a else b }

  function IbtreeCompare(window: bytes, total: nat, key: bytes, done: nat): Report {
    if done >= |key| then Report(0, 0, 0)
    else
      var compared := Min(|window|, |key| - done);
      var newTotal := done + compared;
      var remaining := |key| - newTotal;
      var cmp := Bytes.Compare(window[..compared], key[done..newTotal]);
      if cmp == 0 then
        if remaining == 0 && newTotal < total then Report(1, compared, remaining)
        else if remaining != 0 && newTotal == total then Report(-1, compared, remaining)
        else Report(0, compared, remaining)
      else Report(if cmp < 0 then -1 else 1, compared, remaining)
  }

  /** Payload and key agree on the first `done` bytes, and neither ends there. */
  ghost predicate Undecided(payload: bytes, key: bytes, done: nat) {
    done < |payload| && done < |key| && payload[..done] == key[..done]
  }

  /** One window: a report other than "equal, key bytes left" is the order of the whole payload and key. */
  lemma {:induction false} WindowStep(payload: bytes, key: bytes, done: nat, window: bytes)
    requires done <= |payload| && done < |key| && payload[..done] == key[..done]
    requires window <= payload[done..]
    ensures
      var r := IbtreeCompare(window, |payload|, key, done);
      if r.result != 0 || r.remaining == 0 then r.result == Bytes.Compare(payload, key)
      else r.compared == |window| && Undecided(payload, key, done + r.compared)
  {
    var n := Min(|window|, |key| - done);
    var end := done + n;
    assert window[..n] == payload[done..end];
    assert payload[..end] == payload[..done] + payload[done..end];
    assert key[..end] == key[..done] + key[done..end];
    CompareSkips(payload[..end], key[..end], done);
    assert payload[..end][done..] == payload[done..end] && key[..end][done..] == key[done..end];
    if payload[..end] != key[..end] {
      CompareDecided(payload, key, end);
    } else {
      CompareSkips(payload, key, end);
      assert end == |key| ==> key[end..] == [];
      assert end == |payload| ==> payload[end..] == [];
    }
  }

  /** The part of a payload that ibtree_keyof finds in the cell. */
  function Window(body: Body): bytes {
    match body
    case Inline(payload) => payload
    case Overflow(_, _, prefix) => prefix
  }

  function TotalSize(body: Body): nat {
    match body
    case Inline(payload) => |payload|
    case Overflow(total, _, _) => total
  }

  function FollowPage(body: Body): nat { if body.Overflow? then body.overflowPage else 0 }

  /** Compares across windows; the answer is the order of the whole payload, however it is cut. */
  method CompareCell(
      pager: Pager<PageBody>, body: Body, key: bytes, ghost item: Item)
    returns (status: Status, result: int)
    requires pager.Valid() && item.body == body && Holds(pager.contents, item) && key != []
    modifies pager.Repr
    ensures pager.Valid() && pager.contents == old(pager.contents) && pager.free == old(pager.free)
    ensures status == if Window(body) == [] then Unknown else Ok
    ensures status == Ok ==> result == Bytes.Compare(item.payload, key)
  {
    var window, total, next := Window(body), TotalSize(body), FollowPage(body);
    var report := IbtreeCompare(window, total, key, 0);
    WindowStep(item.payload, key, 0, window);
    result := report.result;
    var done := report.compared;
    if report.compared == 0 {
      return Unknown, result;
    }
    status := Ok;
    if report.result == 0 && report.remaining != 0 && next != 0 {
      result := CompareChain(pager, next, total, key, done, item.payload, item.chain);
    }
  }

  /** The loop over the overflow pages. */
  method CompareChain(
      pager: Pager<PageBody>, first: nat, total: nat, key: bytes, from: nat, ghost payload: bytes,
      ghost chain: seq<nat>)
    returns (result: int)
    requires pager.Valid() && IsChain(pager.contents, chain) && first == Head(chain) && total == |payload|
    requires Undecided(payload, key, from) && ChainData(pager.contents, chain) == payload[from..]
    modifies pager.Repr
    ensures pager.Valid() && pager.contents == old(pager.contents) && pager.free == old(pager.free)
    ensures result == Bytes.Compare(payload, key)
  {
    var next, done: nat := first, from;
    var report := Report(0, 0, |key| - from);
    ghost var rest := chain;
    while report.result == 0 && next != 0 && done < total && report.remaining != 0
      invariant pager.Valid() && pager.contents == old(pager.contents) && pager.free == old(pager.free)
      invariant IsChain(pager.contents, rest) && next == Head(rest)
      invariant
        if report.result != 0 || report.remaining == 0 then report.result == Bytes.Compare(payload, key)
        else Undecided(payload, key, done) && ChainData(pager.contents, rest) == payload[done..]
      decreases |rest|
    {
      var window;
      window, next := OverflowRead(pager, next);
      assert ChainData(pager.contents, rest) == window + ChainData(pager.contents, rest[1..]);
      assert window <= payload[done..];
      report := IbtreeCompare(window, total, key, done);
      WindowStep(payload, key, done, window);
      assert payload[done..][|window|..] == payload[done + |window|..];
      done := done + report.compared;
      rest := rest[1..];
    }
    result := report.result;
  }

  /** The cells hold the items, whose payloads are in strictly increasing order. */
  ghost predicate SortedCells(pages: Pages, cells: seq<Cell>, items: seq<Item>) {
    && |cells| == |items|
    && (forall i :: 0 <= i < |items| ==> cells[i].body == items[i].body && Holds(pages, items[i]))
    && forall i, j :: 0 <= i < j < |items| ==> Less(items[i].payload, items[j].payload)
  }

  /** Binary search in a node: the index of the key, or of the first larger cell. */
  method SearchKeys(pager: Pager<PageBody>, cells: seq<Cell>, key: bytes, ghost items: seq<Item>)
    returns (status: Status, index: nat)
    requires pager.Valid() && key != [] && SortedCells(pager.contents, cells, items)
    modifies pager.Repr
    ensures pager.Valid() && pager.contents == old(pager.contents) && pager.free == old(pager.free)
    ensures status == Ok || status == KeyNotFound || status == Unknown
    ensures status == Ok ==> index < |items| && items[index].payload == key
    ensures status == KeyNotFound ==>
      && index <= |items|
      && (forall i :: 0 <= i < index ==> Less(items[i].payload, key))
      && (forall i :: index <= i < |items| ==> Less(key, items[i].payload))
    ensures status == Unknown ==> exists i :: 0 <= i < |cells| && Window(cells[i].body) == []
  {
    var left, right := 0, |cells| - 1;
    while left <= right
      invariant 0 <= left <= right + 1 <= |cells|
      invariant pager.Valid() && pager.contents == old(pager.contents) && pager.free == old(pager.free)
      invariant forall i :: 0 <= i < left ==> Less(items[i].payload, key)
      invariant forall i :: right < i < |items| ==> Less(key, items[i].payload)
    {
      var mid := (right - left) / 2 + left;
      var compareStatus, result := CompareCell(pager, cells[mid].body, key, items[mid]);
      CompareFlips(items[mid].payload, key);
      if compareStatus != Ok {
        return compareStatus, 0;
      }
      if result == 0 {
        return Ok, mid;
      } else if result == -1 {
        BelowMid(items, mid, key);
        left := mid + 1;
      } else {
        AboveMid(items, mid, key);
        right := mid - 1;
      }
    }
    return KeyNotFound, left;
  }

  lemma {:induction false} BelowMid(items: seq<Item>, mid: nat, key: bytes)
    requires mid < |items| && Less(items[mid].payload, key)
    requires forall i, j :: 0 <= i < j < |items| ==> Less(items[i].payload, items[j].payload)
    ensures forall i :: 0 <= i <= mid ==> Less(items[i].payload, key)
  {
    forall i | 0 <= i < mid ensures Less(items[i].payload, key) {
      LessTransitive(items[i].payload, items[mid].payload, key);
    }
  }

  lemma {:induction false} AboveMid(items: seq<Item>, mid: nat, key: bytes)
    requires mid < |items| && Less(key, items[mid].payload)
    requires forall i, j :: 0 <= i < j < |items| ==> Less(items[i].payload, items[j].payload)
    ensures forall i :: mid <= i < |items| ==> Less(key, items[i].payload)
  {
    forall i | mid < i < |items| ensures Less(key, items[i].payload) {
      LessTransitive(key, items[mid].payload, items[i].payload);
    }
  }
}
