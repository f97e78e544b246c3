/** The drag-and-drop manager for items controls: its guarded settings, the choice of the drop
    position, the move of the dropped item from one list to another (or within one list), and
    the item an auto-scroll brings into view. */
module DragDropManager {
  import opened Common
  import opened Text

  datatype Fault = InvalidOperation | ArgumentOutOfRange | ArgumentNull | NotSupported

  /** `ScrollDataBound`: how close to the panel's edge the pointer starts scrolling. */
  const ScrollDataBound: real := 4.0

  /** The initial drag adorner opacity. */
  const DefaultOpacity: Double := Finite(0.6)

  /** `IList.IndexOf`: the first position of `x`, or -1. */
  function IndexOf<T(==)>(s: seq<T>, x: T): (r: int)
    ensures -1 <= r < |s|
    ensures r >= 0 ==> s[r] == x && forall k :: 0 <= k < r ==> s[k] != x
    ensures r == -1 <==> x !in s
  {
    if |s| == 0 then -1
    else if s[0] == x then 0
    else
      var k := IndexOf(s[1..], x);
      assert x in s[1..] ==> x in s;
      assert x in s ==> x == s[0] || x in s[1..];
      if k < 0 then -1 else k + 1
  }

  /** The list without its element at `i`. */
  function Removed<T>(s: seq<T>, i: nat): (r: seq<T>)
    requires i < |s|
    ensures |r| == |s| - 1
  {
    s[..i] + s[i + 1..]
  }

  /** The list with `x` inserted at `i`. */
  function Inserted<T>(s: seq<T>, i: nat, x: T): (r: seq<T>)
    requires i <= |s|
    ensures |r| == |s| + 1 && r[i] == x
  {
    s[..i] + [x] + s[i..]
  }

  lemma RemovedMultiset<T>(s: seq<T>, i: nat)
    requires i < |s|
    ensures multiset(Removed(s, i)) + multiset{s[i]} == multiset(s)
  {
    assert s == s[..i] + [s[i]] + s[i + 1..];
  }

  lemma InsertedMultiset<T>(s: seq<T>, i: nat, x: T)
    requires i <= |s|
    ensures multiset(Inserted(s, i, x)) == multiset(s) + multiset{x}
  {
    assert s == s[..i] + s[i..];
  }

  /** A list the manager moves items in: an `IList` whose contents change in place. A
      fixed-size list (an array, or a read-only collection such as `ReadOnlyCollection<T>`)
      refuses every `RemoveAt` and `Insert` with a `NotSupportedException`. */
  class ItemList<T(==)> {
    var items: seq<T>
    const fixedSize: bool

    constructor(items: seq<T>, fixedSize: bool)
      ensures this.items == items && this.fixedSize == fixedSize
    {
      this.items := items;
      this.fixedSize := fixedSize;
    }

    /** `IList.RemoveAt`: a fixed-size list throws `NotSupportedException`; otherwise an index
        outside the list throws `ArgumentOutOfRangeException`. */
    method RemoveAt(index: int) returns (thrown: Option<Fault>)
      modifies this
      ensures thrown == None <==> !fixedSize && 0 <= index < |old(items)|
      ensures thrown == None ==> items == Removed(old(items), index)
      ensures fixedSize ==> thrown == Some(NotSupported)
      ensures !fixedSize && thrown != None ==> thrown == Some(ArgumentOutOfRange)
      ensures thrown != None ==> items == old(items)
    {
      if fixedSize {
        return Some(NotSupported);
      }
      if index < 0 || index >= |items| {
        return Some(ArgumentOutOfRange);
      }
      items := Removed(items, index);
      return None;
    }

    /** `IList.Insert`: a fixed-size list throws `NotSupportedException`; otherwise an index
        outside `[0, Count]` throws `ArgumentOutOfRangeException`. */
    method Insert(index: int, x: T) returns (thrown: Option<Fault>)
      modifies this
      ensures thrown == None <==> !fixedSize && 0 <= index <= |old(items)|
      ensures thrown == None ==> items == Inserted(old(items), index, x)
      ensures fixedSize ==> thrown == Some(NotSupported)
      ensures !fixedSize && thrown != None ==> thrown == Some(ArgumentOutOfRange)
      ensures thrown != None ==> items == old(items)
    {
      if fixedSize {
        return Some(NotSupported);
      }
      if index < 0 || index > |items| {
        return Some(ArgumentOutOfRange);
      }
      items := Inserted(items, index, x);
      return None;
    }
  }

  /** Where an items control's items come from. */
  datatype ItemsSource<T(==)> =
    | NoItemsSource
    | ListSource(list: ItemList<T>)
    | NonListSource
    | CollectionView(sourceCollection: Option<ItemList<T>>, viewCount: nat)

  datatype ItemsControl<T(==)> = ItemsControl(items: ItemList<T>, itemsSource: ItemsSource<T>)

  /** The list a collection view wraps, when it has one. */
  function ViewSource<T(==)>(control: Option<ItemsControl<T>>): set<ItemList<T>>
  {
    if control.Some? && control.value.itemsSource.CollectionView?
      && control.value.itemsSource.sourceCollection.Some?
    then {control.value.itemsSource.sourceCollection.value} else {}
  }

  /** `GetItems`: the control's own items without an items source; the source itself when it
      is a list; the list behind a collection view only when the view shows every item of
      it; null otherwise. */
  function GetItems<T(==)>(control: Option<ItemsControl<T>>): (r: Option<ItemList<T>>)
    reads ViewSource(control)
    ensures control.None? ==> r.None?
    ensures control.Some? && control.value.itemsSource.NoItemsSource? ==> r == Some(control.value.items)
    ensures control.Some? && control.value.itemsSource.ListSource? ==> r == Some(control.value.itemsSource.list)
    ensures control.Some? && control.value.itemsSource.NonListSource? ==> r.None?
    ensures control.Some? && control.value.itemsSource.CollectionView? ==>
      var view := control.value.itemsSource;
      (r.Some? <==> view.sourceCollection.Some? && |view.sourceCollection.value.items| == view.viewCount)
      && (r.Some? ==> r == view.sourceCollection)
  {
    match control
    case None => None
    case Some(c) =>
      match c.itemsSource
      case NoItemsSource => Some(c.items)
      case ListSource(list) => Some(list)
      case NonListSource => None
      case CollectionView(source, count) =>
        if source.Some? && |source.value.items| == count then source else None
  }

  /** The drop position: the index of the item under the pointer, one less when the item moves
      down within the same control, one more when the pointer is in the item's lower half,
      clamped to `[0, count]`. */
  function InsertIndex(oldIndex: int, overIndex: int, sameControl: bool, below: bool, count: nat): (r: nat)
    ensures r <= count
    ensures var shifted := (if overIndex > oldIndex && sameControl then overIndex - 1 else overIndex)
      + (if below then 1 else 0);
      (0 <= shifted <= count ==> r == shifted)
      && (shifted < 0 ==> r == 0) && (shifted > count ==> r == count)
  {
    var index := if overIndex > oldIndex && sameControl then overIndex - 1 else overIndex;
    var index' := if below then index + 1 else index;
    if index' < 0 then 0 else if index' > count then count else index'
  }

  /** What a drop does: the exception it throws, the two lists afterwards (equal when they are
      the same list), and whether it clears `IsDragInProgress`. */
  datatype Outcome<T> = Outcome(thrown: Option<Fault>, source: seq<T>, target: seq<T>, endsDrag: bool)

  /** `itemsControl_Drop` on the source and target lists' contents `src` and `tgt`.
      `canDrag` is `CanDragItem`, which calls `DragDrop.DoDragDrop(null, null, ...)` when it is
      false, and that throws `ArgumentNullException`; `over` is the data behind the list item
      under the pointer (`None` when the pointer is over no item); `below` says whether the
      pointer is in that item's lower half; `sameControl` whether the drag started in the target
      control; `sameList` whether the source and target lists are one list; `srcFixed` and
      `tgtFixed` whether they are fixed-size. */
  function DropOutcome<T(==)>(canDrag: bool, dragged: T, over: Option<T>, below: bool, sameControl: bool,
                              sameList: bool, srcFixed: bool, tgtFixed: bool, src: seq<T>, tgt: seq<T>): Outcome<T>
    requires sameList ==> src == tgt && srcFixed == tgtFixed
  {
    if !canDrag then Outcome(Some(ArgumentNull), src, tgt, false)
    else if over.None? && |tgt| != 0 then Outcome(None, src, tgt, true)
    else if over == Some(dragged) then Outcome(None, src, tgt, true)
    else
      var oldIndex := IndexOf(src, dragged);
      var overIndex := if over.Some? then IndexOf(tgt, over.value) else -1;
      var newIndex := InsertIndex(oldIndex, overIndex, sameControl, below, |tgt|);
      if oldIndex == newIndex && sameList then Outcome(None, src, tgt, true)
      else MoveOutcome(sameList, srcFixed, tgtFixed, src, tgt, oldIndex, newIndex, dragged)
  }

  /** `RemoveAt(oldIndex)` on the source list, then `Insert(newIndex, x)` on the target list;
      the second throws after the first has already removed the item. */
  function MoveOutcome<T>(sameList: bool, srcFixed: bool, tgtFixed: bool, src: seq<T>, tgt: seq<T>,
                          oldIndex: int, newIndex: nat, x: T): Outcome<T>
    requires sameList ==> src == tgt && srcFixed == tgtFixed
  {
    if srcFixed then Outcome(Some(NotSupported), src, tgt, false)
    else if oldIndex < 0 || oldIndex >= |src| then Outcome(Some(ArgumentOutOfRange), src, tgt, false)
    else
      var src' := Removed(src, oldIndex);
      var tgt' := if sameList then src' else tgt;
      if tgtFixed then Outcome(Some(NotSupported), src', tgt', false)
      else if newIndex > |tgt'| then Outcome(Some(ArgumentOutOfRange), src', tgt', false)
      else
        var tgt'' := Inserted(tgt', newIndex, x);
        Outcome(None, if sameList then tgt'' else src', tgt'', true)
  }

  /** Past the early exits, a drop either leaves the list alone or makes the move. */
  lemma DropOutcomeMoves<T>(dragged: T, over: Option<T>, below: bool, sameControl: bool, sameList: bool,
                                srcFixed: bool, tgtFixed: bool, src: seq<T>, tgt: seq<T>, oldIndex: int, newIndex: nat)
    requires sameList ==> src == tgt && srcFixed == tgtFixed
    requires !(over.None? && |tgt| != 0) && over != Some(dragged)
    requires oldIndex == IndexOf(src, dragged)
    requires newIndex == InsertIndex(oldIndex, if over.Some? then IndexOf(tgt, over.value) else -1,
                                     sameControl, below, |tgt|)
    ensures DropOutcome(true, dragged, over, below, sameControl, sameList, srcFixed, tgtFixed, src, tgt)
      == if oldIndex == newIndex && sameList then Outcome(None, src, tgt, true)
         else MoveOutcome(sameList, srcFixed, tgtFixed, src, tgt, oldIndex, newIndex, dragged)
  {
  }

  /** Moving item `o` to position `n` of the same list keeps every item, and puts the moved
      one at `n`. */
  lemma MovePermutes<T>(s: seq<T>, o: nat, n: nat)
    requires o < |s| && n < |s|
    ensures var r := Inserted(Removed(s, o), n, s[o]);
      |r| == |s| && r[n] == s[o] && multiset(r) == multiset(s)
  {
    RemovedMultiset(s, o);
    InsertedMultiset(Removed(s, o), n, s[o]);
  }

  /** A move within one list that throws nothing keeps the list's items. */
  lemma MoveWithinList<T>(fixed: bool, s: seq<T>, o: int, n: nat, x: T)
    requires MoveOutcome(true, fixed, fixed, s, s, o, n, x).thrown == None
    requires 0 <= o < |s| ==> s[o] == x
    ensures var out := MoveOutcome(true, fixed, fixed, s, s, o, n, x);
      out.source == out.target && multiset(out.target) == multiset(s) && out.endsDrag
      && x in s && x in out.target
  {
    assert 0 <= o < |s| && n <= |s| - 1;
    MovePermutes(s, o, n);
  }

  /** Within one list, a drop without exception leaves a permutation of the list, with the
      dragged item at the drop position when it moved. */
  lemma DropWithinList<T>(dragged: T, over: Option<T>, below: bool, sameControl: bool, fixed: bool, s: seq<T>)
    requires DropOutcome(true, dragged, over, below, sameControl, true, fixed, fixed, s, s).thrown == None
    ensures var out := DropOutcome(true, dragged, over, below, sameControl, true, fixed, fixed, s, s);
      out.source == out.target && multiset(out.target) == multiset(s) && out.endsDrag
    ensures var out := DropOutcome(true, dragged, over, below, sameControl, true, fixed, fixed, s, s);
      out.target != s ==> dragged in s && dragged in out.target
  {
    if (over.Some? && over != Some(dragged)) || (over.None? && |s| == 0) {
      var oldIndex := IndexOf(s, dragged);
      var newIndex := InsertIndex(oldIndex, if over.Some? then IndexOf(s, over.value) else -1, sameControl, below, |s|);
      DropOutcomeMoves(dragged, over, below, sameControl, true, fixed, fixed, s, s, oldIndex, newIndex);
      if oldIndex != newIndex {
        MoveWithinList(fixed, s, oldIndex, newIndex, dragged);
      }
    }
  }

  /** Across two lists, a completed move takes the dragged item out of the source and puts it
      into the target at the drop position: the source shrinks by one, the target grows by one. */
  lemma DropAcrossLists<T>(dragged: T, over: Option<T>, below: bool, sameControl: bool, srcFixed: bool, tgtFixed: bool,
                           src: seq<T>, tgt: seq<T>)
    requires over.Some? || |tgt| == 0
    requires over != Some(dragged)
    requires DropOutcome(true, dragged, over, below, sameControl, false, srcFixed, tgtFixed, src, tgt).thrown == None
    ensures var out := DropOutcome(true, dragged, over, below, sameControl, false, srcFixed, tgtFixed, src, tgt);
      |out.source| == |src| - 1 && |out.target| == |tgt| + 1
      && multiset(out.source) + multiset{dragged} == multiset(src)
      && multiset(out.target) == multiset(tgt) + multiset{dragged}
      && out.target[InsertIndex(IndexOf(src, dragged), if over.Some? then IndexOf(tgt, over.value) else -1,
                                sameControl, below, |tgt|)] == dragged
  {
    var oldIndex := IndexOf(src, dragged);
    var overIndex := if over.Some? then IndexOf(tgt, over.value) else -1;
    var newIndex := InsertIndex(oldIndex, overIndex, sameControl, below, |tgt|);
    RemovedMultiset(src, oldIndex);
    InsertedMultiset(tgt, newIndex, dragged);
  }

  /** In one resizable list of distinct items, dropping an item onto another item of the same
      control never throws: the removal finds the item, and the drop position fits the
      shortened list. A fixed-size list refuses the removal whenever the item would move. */
  lemma DropWithinListSucceeds<T>(dragged: T, over: T, below: bool, fixed: bool, s: seq<T>)
    requires forall a, b :: 0 <= a < b < |s| ==> s[a] != s[b]
    requires dragged in s && over in s && over != dragged
    ensures var n := InsertIndex(IndexOf(s, dragged), IndexOf(s, over), true, below, |s|);
      DropOutcome(true, dragged, Some(over), below, true, true, fixed, fixed, s, s).thrown
      == if fixed && n != IndexOf(s, dragged) then Some(NotSupported) else None
  {
    var o := IndexOf(s, dragged);
    var v := IndexOf(s, over);
    assert o != v;
    var n := InsertIndex(o, v, true, below, |s|);
    assert n <= |s| - 1;
  }

  /** `AutoScrollToItem`: near the top of the items panel the item before the one under the
      pointer is brought into view, near the bottom the one after it; the index is clamped to
      the list. `None` when nothing is scrolled. */
  function ScrollTarget<T(==)>(isListBox: bool, items: Option<seq<T>>, targetItem: Option<T>, y: real, panelHeight: real): (r: Option<int>)
    ensures r.Some? ==> items.Some? && 0 <= r.value < |items.value|
    ensures r.Some? ==> isListBox && targetItem.Some?
    ensures !(isListBox && items.Some? && |items.value| > 0 && targetItem.Some?) ==> r == None
    ensures isListBox && items.Some? && |items.value| > 0 && targetItem.Some? && y < ScrollDataBound ==>
      r == Some(if IndexOf(items.value, targetItem.value) <= 0 then 0 else IndexOf(items.value, targetItem.value) - 1)
    ensures (isListBox && items.Some? && |items.value| > 0 && targetItem.Some?
             && ScrollDataBound <= y && y >= panelHeight - ScrollDataBound) ==>
      r == Some(if IndexOf(items.value, targetItem.value) >= |items.value| - 1 then |items.value| - 1
                else IndexOf(items.value, targetItem.value) + 1)
    ensures ScrollDataBound <= y < panelHeight - ScrollDataBound ==> r == None
  {
    if isListBox && items.Some? && |items.value| > 0 && targetItem.Some? then
      var current := IndexOf(items.value, targetItem.value);
      if y < ScrollDataBound then Some(if current - 1 < 0 then 0 else current - 1)
      else if y >= panelHeight - ScrollDataBound then
        Some(if current + 1 > |items.value| - 1 then |items.value| - 1 else current + 1)
      else None
    else None
  }

  /** For an item of the list, the item scrolled into view is its neighbour on the side of the
      edge the pointer is near, or the item itself when it is already first (near the top) or
      last (near the bottom); nothing is scrolled in the middle of the panel. */
  lemma ScrollToNeighbour<T>(items: seq<T>, x: T, y: real, panelHeight: real)
    requires x in items
    ensures var r := ScrollTarget(true, Some(items), Some(x), y, panelHeight);
      var i := IndexOf(items, x);
      (r.Some? <==> y < ScrollDataBound || y >= panelHeight - ScrollDataBound)
      && (r.Some? ==> items[r.value] == if y < ScrollDataBound then items[if i == 0 then 0 else i - 1]
                                        else items[if i == |items| - 1 then i else i + 1])
      && (r.Some? && r.value == i ==> (y < ScrollDataBound && i == 0) || (y >= ScrollDataBound && i == |items| - 1))
  {
  }

  /** The move `itemsControl_Drop` makes once it has chosen both indices. */
  method Move<T(==)>(source: ItemList<T>, target: ItemList<T>, oldIndex: int, newIndex: nat, x: T)
    returns (thrown: Option<Fault>)
    modifies source, target
    ensures var out := MoveOutcome(source == target, source.fixedSize, target.fixedSize, old(source.items),
                                   old(target.items), oldIndex, newIndex, x);
      thrown == out.thrown && source.items == out.source && target.items == out.target
  {
    ghost var src, tgt := source.items, target.items;
    thrown := source.RemoveAt(oldIndex);
    if thrown != None {
      return;
    }
    ghost var src' := Removed(src, oldIndex);
    ghost var tgt' := if source == target then src' else tgt;
    assert source.items == src' && target.items == tgt';
    thrown := target.Insert(newIndex, x);
  }

  /** The part of `itemsControl_Drop` after its early exits: both indices are chosen, and the
      item is moved unless it would stay where it is in the same list. */
  method MoveDragged<T(==)>(dragged: T, over: Option<T>, below: bool, sameControl: bool,
                            source: ItemList<T>, target: ItemList<T>) returns (thrown: Option<Fault>, endsDrag: bool)
    requires !(over.None? && |target.items| != 0) && over != Some(dragged)
    modifies source, target
    ensures var out := DropOutcome(true, dragged, over, below, sameControl, source == target,
                                   source.fixedSize, target.fixedSize, old(source.items), old(target.items));
      thrown == out.thrown && source.items == out.source && target.items == out.target
      && endsDrag == out.endsDrag
  {
    ghost var src, tgt := source.items, target.items;
    var oldIndex := IndexOf(source.items, dragged);
    var overIndex := if over.Some? then IndexOf(target.items, over.value) else -1;
    var newIndex := InsertIndex(oldIndex, overIndex, sameControl, below, |target.items|);
    DropOutcomeMoves(dragged, over, below, sameControl, source == target, source.fixedSize, target.fixedSize,
                     src, tgt, oldIndex, newIndex);
    if oldIndex != newIndex || source != target {
      thrown := Move(source, target, oldIndex, newIndex, dragged);
      endsDrag := thrown == None;
    } else {
      thrown, endsDrag := None, true;
    }
  }

  class ItemsControlDragDropManager {
    var isDragInProgress: bool
    var dragAdornerOpacity: Double
    /** The target control, by identity. */
    var targetElement: Option<nat>
    var dataFormat: Option<string>
    /** Whether the adorner layer of the target is cached. */
    var adornerLayerCached: bool

    constructor()
      ensures !isDragInProgress && dragAdornerOpacity == DefaultOpacity
      ensures targetElement == None && dataFormat == None && !adornerLayerCached
    {
      isDragInProgress := false;
      dragAdornerOpacity := DefaultOpacity;
      targetElement := None;
      dataFormat := None;
      adornerLayerCached := false;
    }

    /** `DragAdornerOpacity`: refused during a drag, and below 0 or above 1. NaN compares false
        both ways, so it passes the range guard and is stored. */
    method SetDragAdornerOpacity(v: Double) returns (thrown: Option<Fault>)
      modifies this
      ensures isDragInProgress ==> thrown == Some(InvalidOperation)
      ensures !isDragInProgress && (DoubleLess(v, 0.0) || DoubleGreater(v, 1.0)) ==> thrown == Some(ArgumentOutOfRange)
      ensures thrown == None <==> !isDragInProgress && (v.NaN? || (v.Finite? && 0.0 <= v.x <= 1.0))
      ensures !isDragInProgress && v.NaN? ==> thrown == None && dragAdornerOpacity.NaN?
      ensures thrown == None ==> dragAdornerOpacity == v
      ensures thrown != None ==> dragAdornerOpacity == old(dragAdornerOpacity)
      ensures isDragInProgress == old(isDragInProgress) && targetElement == old(targetElement)
      ensures dataFormat == old(dataFormat) && adornerLayerCached == old(adornerLayerCached)
    {
      if isDragInProgress {
        return Some(InvalidOperation);
      }
      if DoubleLess(v, 0.0) || DoubleGreater(v, 1.0) {
        return Some(ArgumentOutOfRange);
      }
      dragAdornerOpacity := v;
      return None;
    }

    /** `TargetElement`: refused during a drag; otherwise the target is replaced, a target
        gets a fresh data format (`freshFormat`, a new GUID) only when none is set yet, and the
        cached adorner layer is dropped. */
    method SetTargetElement(target: Option<nat>, freshFormat: string) returns (thrown: Option<Fault>)
      modifies this
      ensures thrown == None <==> !old(isDragInProgress)
      ensures thrown != None ==>
        thrown == Some(InvalidOperation) && targetElement == old(targetElement)
        && dataFormat == old(dataFormat) && adornerLayerCached == old(adornerLayerCached)
      ensures thrown == None ==> targetElement == target && !adornerLayerCached
      ensures thrown == None && target.Some? && IsNullOrEmpty(old(dataFormat)) ==> dataFormat == Some(freshFormat)
      ensures thrown == None && (target.None? || !IsNullOrEmpty(old(dataFormat))) ==> dataFormat == old(dataFormat)
      ensures isDragInProgress == old(isDragInProgress) && dragAdornerOpacity == old(dragAdornerOpacity)
    {
      if isDragInProgress {
        return Some(InvalidOperation);
      }
      targetElement := target;
      if target.Some? && IsNullOrEmpty(dataFormat) {
        dataFormat := Some(freshFormat);
      }
      adornerLayerCached := false;
      return None;
    }

    /** `itemsControl_Drop` on the source list `source` and the target list `target`, which may
        be one list. */
    method Drop<T(==)>(canDrag: bool, dragged: T, over: Option<T>, below: bool, sameControl: bool,
                       source: ItemList<T>, target: ItemList<T>) returns (thrown: Option<Fault>)
      requires sameControl ==> source == target
      modifies this, source, target
      ensures var out := DropOutcome(canDrag, dragged, over, below, sameControl, source == target,
                                     source.fixedSize, target.fixedSize, old(source.items), old(target.items));
        thrown == out.thrown && source.items == out.source && target.items == out.target
        && (out.endsDrag ==> !isDragInProgress)
        && (!out.endsDrag ==> isDragInProgress == old(isDragInProgress))
      ensures dragAdornerOpacity == old(dragAdornerOpacity) && targetElement == old(targetElement)
      ensures dataFormat == old(dataFormat)
    {
      if !canDrag {
        return Some(ArgumentNull);
      }
      if (over.None? && |target.items| != 0) || over == Some(dragged) {
        isDragInProgress := false;
        return None;
      }
      var endsDrag;
      thrown, endsDrag := MoveDragged(dragged, over, below, sameControl, source, target);
      if endsDrag {
        isDragInProgress := false;
      }
    }
  }
}
