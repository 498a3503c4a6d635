/**
 The broadcast ring (spsc_ring.go), one transition per atomic operation.

 One producer runs Push. Any number of goroutines run Pop: the subscriber, Close, and the
 producer itself, which pops as popper 0 when the ring is full and drops its oldest value.
 A popper that read `tail` long ago may therefore lift a newer value out of its slot; the
 proofs show that it always puts that value back where it was.

 A cell carries, beside the value, the position `pos` at which Push placed it. Positions
 are bookkeeping: no step reads them.
 */
module SpscRing {
  import opened Common
  import opened Masking

  datatype Cell = Cell(value: nat, pos: nat)

  /** Program counter of one Pop call; each state names the operation that comes next. */
  datatype PopPc =
    | PopIdle
    | PopLoadTail
    | PopLoadHead(tail: nat)
    | PopSwap(tail: nat)
    | PopCas(tail: nat, cell: Cell)
    | PopPutBack(tail: nat, cell: Cell)
  {
    predicate Holds() {
      PopCas? || PopPutBack?
    }
  }

  /** Program counter of the producer's Push call. */
  datatype PushPc =
    | PushIdle
    | PushLoadHead(value: nat)
    | PushLoadTail(value: nat, head: nat)
    | PushDropping(value: nat)
    | PushSlot(value: nat, head: nat)
    | PushHead(value: nat, head: nat)
    | PushUndo(value: nat, head: nat)

  datatype Departure = Departure(popper: nat, value: nat)

  datatype State = State(
    dropOldest: bool,
    slots: seq<Option<Cell>>,
    head: nat,
    tail: nat,
    producer: PushPc,
    poppers: seq<PopPc>,
    accepted: seq<nat>,
    departed: seq<Departure>)
  {
    function Capacity(): nat {
      |slots|
    }
  }

  datatype Action =
    | Offer(value: nat)
    | Producer
    | StartPop(popper: nat)
    | Popper(popper: nat)

  // Transitions

  function PopAt(s: State, i: nat, pc: PopPc): State
    requires i < |s.poppers|
  {
    s.(poppers := s.poppers[i := pc])
  }

  /** The popper's call returns; the producer's own call resumes its Push loop. */
  function PopReturns(s: State, i: nat): State
    requires i < |s.poppers|
  {
    var s' := s.(poppers := s.poppers[i := PopIdle]);
    if i == 0 && s.producer.PushDropping? then
      s'.(producer := PushLoadHead(s.producer.value))
    else
      s'
  }

  function PopStep(s: State, i: nat): State
    requires i < |s.poppers| && s.Capacity() >= 1
  {
    match s.poppers[i]
    case PopIdle => s
    case PopLoadTail => PopAt(s, i, PopLoadHead(s.tail))
    case PopLoadHead(tail) =>
      if tail >= s.head then PopReturns(s, i) else PopAt(s, i, PopSwap(tail))
    case PopSwap(tail) =>
      var index := Slot(tail, s.Capacity());
      if index >= |s.slots| then s
      else if s.slots[index].None? then PopAt(s, i, PopLoadTail)
      else PopAt(s, i, PopCas(tail, s.slots[index].value)).(slots := s.slots[index := None])
    case PopCas(tail, cell) =>
      if s.tail == tail then
        PopReturns(s, i).(tail := tail + 1, departed := s.departed + [Departure(i, cell.value)])
      else
        PopAt(s, i, PopPutBack(tail, cell))
    case PopPutBack(tail, cell) =>
      var index := Slot(tail, s.Capacity());
      if index >= |s.slots| then s
      else PopAt(s, i, PopLoadTail).(slots := s.slots[index := Some(cell)])
  }

  function PushStep(s: State): State
    requires |s.poppers| >= 1 && s.Capacity() >= 1
  {
    match s.producer
    case PushIdle => s
    case PushLoadHead(value) => s.(producer := PushLoadTail(value, s.head))
    case PushLoadTail(value, head) =>
      if head - s.tail >= s.Capacity() then
        if s.dropOldest then
          s.(producer := PushDropping(value), poppers := s.poppers[0 := PopLoadTail])
        else
          s.(producer := PushIdle)
      else
        s.(producer := PushSlot(value, head))
    case PushDropping(_) => s
    case PushSlot(value, head) =>
      var index := Slot(head, s.Capacity());
      if index < |s.slots| && s.slots[index].None? then
        s.(slots := s.slots[index := Some(Cell(value, head))], producer := PushHead(value, head))
      else
        s.(producer := PushLoadHead(value))
    case PushHead(value, head) =>
      if s.head == head then
        s.(head := head + 1, producer := PushIdle, accepted := s.accepted + [value])
      else
        s.(producer := PushUndo(value, head))
    case PushUndo(value, head) =>
      var index := Slot(head, s.Capacity());
      if index >= |s.slots| then s
      else s.(slots := s.slots[index := None], producer := PushLoadHead(value))
  }

  /** One atomic operation of one goroutine; an action that is not enabled changes nothing. */
  function Step(s: State, a: Action): State {
    if |s.poppers| == 0 || s.Capacity() == 0 then s else
    match a
    case Offer(value) =>
      if s.producer.PushIdle? then s.(producer := PushLoadHead(value)) else s
    case Producer => PushStep(s)
    case StartPop(i) =>
      if 0 < i < |s.poppers| && s.poppers[i].PopIdle? then
        s.(poppers := s.poppers[i := PopLoadTail])
      else
        s
    case Popper(i) =>
      if i < |s.poppers| then PopStep(s, i) else s
  }

  function Run(s: State, actions: seq<Action>): State {
    if actions == [] then s
    else Step(Run(s, actions[..|actions| - 1]), actions[|actions| - 1])
  }

  function Init(capacity: nat, poppers: nat, dropOldest: bool): State {
    State(dropOldest, seq(capacity, _ => None), 0, 0, PushIdle, seq(poppers, _ => PopIdle), [], [])
  }

  // Invariant

  /** One past the last position whose value exists: Push places a value before it moves head. */
  function End(s: State): nat {
    if s.producer.PushHead? then s.head + 1 else s.head
  }

  ghost predicate Genuine(s: State, cell: Cell) {
    && s.tail <= cell.pos < End(s)
    && (cell.pos < |s.accepted| ==> cell.value == s.accepted[cell.pos])
    && (cell.pos == s.head ==> s.producer.PushHead? && cell.value == s.producer.value)
  }

  ghost predicate InSlot(s: State, pos: nat)
    requires s.Capacity() >= 1
  {
    && Slot(pos, s.Capacity()) < |s.slots|
    && s.slots[Slot(pos, s.Capacity())].Some?
    && s.slots[Slot(pos, s.Capacity())].value.pos == pos
  }

  ghost predicate InHand(s: State, i: nat, pos: nat) {
    i < |s.poppers| && s.poppers[i].Holds() && s.poppers[i].cell.pos == pos
  }

  ghost predicate Counters(s: State) {
    && IsPow2(s.Capacity())
    && |s.poppers| >= 1
    && s.tail <= s.head && End(s) <= s.tail + s.Capacity()
    && |s.accepted| == s.head
  }

  ghost predicate ProducerOk(s: State) {
    match s.producer
    case PushLoadTail(_, head) => head == s.head
    case PushSlot(_, head) => head == s.head && s.head < s.tail + s.Capacity()
    case PushHead(_, head) => head == s.head
    case PushUndo(_, _) => false
    case _ => true
  }

  ghost predicate SlotsOk(s: State)
    requires s.Capacity() >= 1
  {
    forall x :: 0 <= x < |s.slots| && s.slots[x].Some? ==>
      Genuine(s, s.slots[x].value) && Slot(s.slots[x].value.pos, s.Capacity()) == x
  }

  ghost predicate PopperOk(s: State, pc: PopPc)
    requires s.Capacity() >= 1
  {
    && (pc.PopLoadHead? || pc.PopSwap? || pc.Holds() ==> pc.tail <= s.tail)
    && (pc.PopSwap? || pc.Holds() ==> pc.tail < s.head)
    && (pc.PopPutBack? ==> pc.tail < s.tail)
    && (pc.Holds() ==>
          && Genuine(s, pc.cell)
          && pc.tail <= pc.cell.pos
          && Slot(pc.tail, s.Capacity()) == Slot(pc.cell.pos, s.Capacity())
          && Slot(pc.tail, s.Capacity()) < |s.slots|
          && s.slots[Slot(pc.tail, s.Capacity())].None?)
  }

  ghost predicate PoppersOk(s: State)
    requires s.Capacity() >= 1 && |s.poppers| >= 1
  {
    && (forall i :: 0 <= i < |s.poppers| ==> PopperOk(s, s.poppers[i]))
    && (forall i, j :: 0 <= i < j < |s.poppers| && s.poppers[i].Holds() && s.poppers[j].Holds() ==>
          s.poppers[i].cell.pos != s.poppers[j].cell.pos)
    && (!s.poppers[0].PopIdle? ==> s.producer.PushDropping? && s.dropOldest)
  }

  /** No live position is lost: its value is in its slot or in some popper's hand. */
  ghost predicate NothingLost(s: State)
    requires s.Capacity() >= 1
  {
    forall pos: nat :: s.tail <= pos < End(s) ==> InSlot(s, pos) || exists i: nat :: InHand(s, i, pos)
  }

  ghost predicate DeparturesOk(s: State) {
    && |s.departed| == s.tail <= |s.accepted|
    && (forall k :: 0 <= k < s.tail ==> s.departed[k].value == s.accepted[k])
    && (forall k :: 0 <= k < s.tail ==> s.departed[k].popper == 0 ==> s.dropOldest)
  }

  ghost predicate Inv(s: State) {
    && Counters(s)
    && s.Capacity() >= 1
    && ProducerOk(s)
    && SlotsOk(s)
    && PoppersOk(s)
    && NothingLost(s)
    && DeparturesOk(s)
  }

  // Proof

  /** Two live positions that share a slot are the same position. */
  lemma SameSlot(s: State, p: nat, q: nat)
    requires Counters(s) && s.Capacity() >= 1
    requires s.tail <= p < s.tail + s.Capacity() && s.tail <= q < s.tail + s.Capacity()
    requires Slot(p, s.Capacity()) == Slot(q, s.Capacity())
    ensures p == q
  {
    if p <= q {
      SlotWindow(p, q, s.Capacity());
    } else {
      SlotWindow(q, p, s.Capacity());
    }
  }

  /** A not-full ring has an empty slot at head, so Push's slot CAS succeeds. */
  lemma SlotAtHeadEmpty(s: State)
    requires Inv(s) && s.head < s.tail + s.Capacity() && !s.producer.PushHead?
    ensures Slot(s.head, s.Capacity()) < |s.slots| && s.slots[Slot(s.head, s.Capacity())].None?
  {
    SlotBelow(s.head, s.Capacity());
    var x := Slot(s.head, s.Capacity());
    if s.slots[x].Some? {
      SameSlot(s, s.head, s.slots[x].value.pos);
    }
  }

  lemma PlaceKeepsInv(s: State)
    requires Inv(s) && s.producer.PushSlot?
    ensures Inv(PushStep(s)) && PushStep(s).producer.PushHead?
  {
    SlotAtHeadEmpty(s);
    var s' := PushStep(s);
    var n := s.Capacity();
    forall i | 0 <= i < |s'.poppers|
      ensures PopperOk(s', s'.poppers[i])
    {
      var pc := s.poppers[i];
      assert PopperOk(s, pc);
      if pc.Holds() && Slot(pc.cell.pos, n) == Slot(s.head, n) {
        SameSlot(s, pc.cell.pos, s.head);
      }
    }
    forall pos: nat | s'.tail <= pos < End(s')
      ensures InSlot(s', pos) || exists i: nat :: InHand(s', i, pos)
    {
      if pos < s.head {
        assert InSlot(s, pos) || exists i: nat :: InHand(s, i, pos);
        if InSlot(s, pos) {
          assert InSlot(s', pos);
        } else {
          var i: nat :| InHand(s, i, pos);
          assert InHand(s', i, pos);
        }
      } else {
        assert InSlot(s', pos);
      }
    }
  }

  /** Hands and slots that are unchanged keep every live position. */
  lemma SamePlaces(s: State, s': State)
    requires Inv(s) && s'.slots == s.slots && s'.tail >= s.tail && End(s') <= End(s)
    requires forall i: nat, pos: nat :: s'.tail <= pos && InHand(s, i, pos) ==> InHand(s', i, pos)
    ensures NothingLost(s')
  {
    forall pos: nat | s'.tail <= pos < End(s')
      ensures InSlot(s', pos) || exists i: nat :: InHand(s', i, pos)
    {
      assert InSlot(s, pos) || exists i: nat :: InHand(s, i, pos);
      if InSlot(s, pos) {
        assert InSlot(s', pos);
      } else {
        var i: nat :| InHand(s, i, pos);
        assert InHand(s', i, pos);
      }
    }
  }

  /** The head CAS turns the placed value into an accepted one. */
  lemma AcceptKeepsInv(s: State)
    requires Inv(s) && s.producer.PushHead?
    ensures Inv(PushStep(s))
  {
    var s' := PushStep(s);
    assert s'.head == s.head + 1 && s'.accepted == s.accepted + [s.producer.value];
    SamePlaces(s, s');
    assert forall i :: 0 <= i < |s.poppers| ==> PopperOk(s, s.poppers[i]);
  }

  lemma PushKeepsInv(s: State)
    requires Inv(s)
    ensures Inv(PushStep(s))
  {
    if s.producer.PushSlot? {
      PlaceKeepsInv(s);
    } else if s.producer.PushHead? {
      AcceptKeepsInv(s);
    } else {
      SamePlaces(s, PushStep(s));
      assert forall i :: 0 <= i < |s.poppers| ==> PopperOk(s, s.poppers[i]);
    }
  }

  /** The state after popper i lifts the cell out of slot x. */
  function Lifted(s: State, i: nat, x: nat): State
    requires i < |s.poppers| && s.poppers[i].PopSwap? && x < |s.slots| && s.slots[x].Some?
  {
    PopAt(s, i, PopCas(s.poppers[i].tail, s.slots[x].value)).(slots := s.slots[x := None])
  }

  lemma LiftKeepsPoppers(s: State, i: nat, x: nat)
    requires Inv(s) && i < |s.poppers| && s.poppers[i].PopSwap? && x < |s.slots| && s.slots[x].Some?
    requires x == Slot(s.poppers[i].tail, s.Capacity())
    ensures PoppersOk(Lifted(s, i, x))
  {
    var s' := Lifted(s, i, x);
    assert PopperOk(s, s.poppers[i]);
    forall j | 0 <= j < |s'.poppers|
      ensures PopperOk(s', s'.poppers[j])
      ensures j != i && s.poppers[j].Holds() ==> s.poppers[j].cell.pos != s.slots[x].value.pos
    {
      assert PopperOk(s, s.poppers[j]);
    }
  }

  lemma LiftLosesNothing(s: State, i: nat, x: nat)
    requires Inv(s) && i < |s.poppers| && s.poppers[i].PopSwap? && x < |s.slots| && s.slots[x].Some?
    ensures NothingLost(Lifted(s, i, x))
  {
    var s' := Lifted(s, i, x);
    forall pos: nat | s'.tail <= pos < End(s')
      ensures InSlot(s', pos) || exists j: nat :: InHand(s', j, pos)
    {
      assert InSlot(s, pos) || exists j: nat :: InHand(s, j, pos);
      if pos == s.slots[x].value.pos {
        assert InHand(s', i, pos);
      } else if InSlot(s, pos) {
        assert InSlot(s', pos);
      } else {
        var j: nat :| InHand(s, j, pos);
        assert InHand(s', j, pos);
      }
    }
  }

  lemma SwapKeepsInv(s: State, i: nat)
    requires Inv(s) && i < |s.poppers| && s.poppers[i].PopSwap?
    ensures Inv(PopStep(s, i))
  {
    assert PopperOk(s, s.poppers[i]);
    var x := Slot(s.poppers[i].tail, s.Capacity());
    SlotBelow(s.poppers[i].tail, s.Capacity());
    if s.slots[x].None? {
      LocalKeepsInv(s, i, PopLoadTail);
    } else {
      LiftKeepsPoppers(s, i, x);
      LiftLosesNothing(s, i, x);
    }
  }

  /** A tail CAS that succeeds takes out the oldest value, even if tail was read long ago. */
  lemma CasTakesOldest(s: State, i: nat)
    requires Inv(s) && i < |s.poppers| && s.poppers[i].PopCas? && s.poppers[i].tail == s.tail
    ensures s.poppers[i].cell.pos == s.tail
  {
    assert PopperOk(s, s.poppers[i]);
    SameSlot(s, s.tail, s.poppers[i].cell.pos);
  }

  /** The state after popper i takes the oldest value out. */
  function Taken(s: State, i: nat): State
    requires i < |s.poppers| && s.poppers[i].PopCas?
  {
    PopReturns(s, i).(tail := s.tail + 1, departed := s.departed + [Departure(i, s.poppers[i].cell.value)])
  }

  lemma TakeKeepsPoppers(s: State, i: nat)
    requires Inv(s) && i < |s.poppers| && s.poppers[i].PopCas? && s.poppers[i].tail == s.tail
    ensures PoppersOk(Taken(s, i))
  {
    var s' := Taken(s, i);
    CasTakesOldest(s, i);
    forall j | 0 <= j < |s'.poppers|
      ensures PopperOk(s', s'.poppers[j])
    {
      assert PopperOk(s, s.poppers[j]);
      if j != i && s.poppers[j].Holds() {
        assert s.poppers[j].cell.pos != s.tail;
      }
    }
  }

  lemma TakeKeepsInv(s: State, i: nat)
    requires Inv(s) && i < |s.poppers| && s.poppers[i].PopCas? && s.poppers[i].tail == s.tail
    ensures Inv(PopStep(s, i))
  {
    var s' := Taken(s, i);
    CasTakesOldest(s, i);
    assert PopperOk(s, s.poppers[i]);
    TakeKeepsPoppers(s, i);
    assert SlotsOk(s') by {
      forall x | 0 <= x < |s'.slots| && s'.slots[x].Some?
        ensures Genuine(s', s'.slots[x].value)
      {
        assert Genuine(s, s.slots[x].value);
      }
    }
    assert NothingLost(s') by {
      SamePlaces(s, s');
    }
  }

  /** A step that moves only one popper's counter, and no value, keeps the invariant. */
  lemma LocalKeepsInv(s: State, i: nat, pc: PopPc)
    requires Inv(s) && i < |s.poppers| && PopperOk(s, pc)
    requires pc.Holds() == s.poppers[i].Holds()
    requires pc.Holds() ==> pc.cell == s.poppers[i].cell
    requires pc.PopIdle? || i > 0 || (s.producer.PushDropping? && s.dropOldest)
    ensures Inv(PopAt(s, i, pc))
  {
    var s' := PopAt(s, i, pc);
    forall j | 0 <= j < |s'.poppers|
      ensures PopperOk(s', s'.poppers[j])
    {
      assert PopperOk(s, s.poppers[j]);
    }
    SamePlaces(s, s');
  }

  /** A put-back finds its slot empty: it never overwrites a value. */
  lemma PutBackKeepsInv(s: State, i: nat)
    requires Inv(s) && i < |s.poppers| && s.poppers[i].PopPutBack?
    ensures Slot(s.poppers[i].tail, s.Capacity()) < |s.slots|
    ensures s.slots[Slot(s.poppers[i].tail, s.Capacity())].None?
    ensures Inv(PopStep(s, i)) && InSlot(PopStep(s, i), s.poppers[i].cell.pos)
  {
    var s' := PopStep(s, i);
    var pc := s.poppers[i];
    var n := s.Capacity();
    assert PopperOk(s, pc);
    forall j | 0 <= j < |s'.poppers|
      ensures PopperOk(s', s'.poppers[j])
    {
      var other := s.poppers[j];
      assert PopperOk(s, other);
      if j != i && other.Holds() && Slot(other.cell.pos, n) == Slot(pc.cell.pos, n) {
        SameSlot(s, other.cell.pos, pc.cell.pos);
      }
    }
    forall pos: nat | s'.tail <= pos < End(s')
      ensures InSlot(s', pos) || exists j: nat :: InHand(s', j, pos)
    {
      assert InSlot(s, pos) || exists j: nat :: InHand(s, j, pos);
      if pos == pc.cell.pos {
        assert InSlot(s', pos);
      } else if InSlot(s, pos) {
        assert InSlot(s', pos);
      } else {
        var j: nat :| InHand(s, j, pos);
        assert InHand(s', j, pos);
      }
    }
  }

  lemma PopKeepsInv(s: State, i: nat)
    requires Inv(s) && i < |s.poppers|
    ensures Inv(PopStep(s, i))
  {
    var pc := s.poppers[i];
    assert PopperOk(s, pc);
    if pc.PopSwap? {
      SwapKeepsInv(s, i);
    } else if pc.PopCas? && pc.tail == s.tail {
      TakeKeepsInv(s, i);
    } else if pc.PopPutBack? {
      PutBackKeepsInv(s, i);
    } else {
      LocalKeepsInv(s, i, PopStep(s, i).poppers[i]);
    }
  }

  lemma StepKeepsInv(s: State, a: Action)
    requires Inv(s)
    ensures Inv(Step(s, a))
  {
    match a
    case Producer => PushKeepsInv(s);
    case Popper(i) =>
      if i < |s.poppers| {
        PopKeepsInv(s, i);
      }
    case StartPop(i) =>
      if 0 < i < |s.poppers| && s.poppers[i].PopIdle? {
        LocalKeepsInv(s, i, PopLoadTail);
      }
    case Offer(_) =>
      SamePlaces(s, Step(s, a));
      assert forall j :: 0 <= j < |s.poppers| ==> PopperOk(s, s.poppers[j]);
  }

  lemma {:induction false} RunKeepsInv(capacity: nat, poppers: nat, dropOldest: bool, actions: seq<Action>)
    requires IsPow2(capacity) && poppers >= 1
    ensures Inv(Run(Init(capacity, poppers, dropOldest), actions))
  {
    if actions != [] {
      RunKeepsInv(capacity, poppers, dropOldest, actions[..|actions| - 1]);
      StepKeepsInv(Run(Init(capacity, poppers, dropOldest), actions[..|actions| - 1]), actions[|actions| - 1]);
    }
  }

  // Main results

  /** Where the value accepted at a position can be. */
  datatype Place = InSlotAt(index: nat) | InHandOf(popper: nat) | Gone(order: nat)

  ghost function PlacesOf(s: State, pos: nat): set<Place> {
    (set x: nat | x < |s.slots| && s.slots[x].Some? && s.slots[x].value.pos == pos :: InSlotAt(x))
    + (set i: nat | i < |s.poppers| && InHand(s, i, pos) :: InHandOf(i))
    + (set k: nat | k < |s.departed| && k == pos :: Gone(k))
  }

  /**
   In every interleaving each accepted value is in exactly one place: its slot, one
   popper's hand, or gone; and wherever it is, it is the value that Push accepted there.
   */
  lemma ExactlyOnePlace(capacity: nat, poppers: nat, dropOldest: bool, actions: seq<Action>, pos: nat)
    requires IsPow2(capacity) && poppers >= 1
    requires pos < |Run(Init(capacity, poppers, dropOldest), actions).accepted|
    ensures var s := Run(Init(capacity, poppers, dropOldest), actions);
            exists place ::
              && PlacesOf(s, pos) == {place}
              && (place.InSlotAt? ==> s.slots[place.index] == Some(Cell(s.accepted[pos], pos)))
              && (place.InHandOf? ==> s.poppers[place.popper].cell == Cell(s.accepted[pos], pos))
              && (place.Gone? ==> s.departed[place.order].value == s.accepted[pos])
  {
    RunKeepsInv(capacity, poppers, dropOldest, actions);
    var s := Run(Init(capacity, poppers, dropOldest), actions);
    var place := TheOnlyPlace(s, pos);
  }

  lemma TheOnlyPlace(s: State, pos: nat) returns (place: Place)
    requires Inv(s) && pos < |s.accepted|
    ensures PlacesOf(s, pos) == {place}
    ensures place.InSlotAt? ==> s.slots[place.index] == Some(Cell(s.accepted[pos], pos))
    ensures place.InHandOf? ==> s.poppers[place.popper].cell == Cell(s.accepted[pos], pos)
    ensures place.Gone? ==> s.departed[place.order].value == s.accepted[pos]
  {
    forall i: nat | InHand(s, i, pos)
      ensures !InSlot(s, pos) && s.tail <= pos && s.poppers[i].cell == Cell(s.accepted[pos], pos)
    {
      assert PopperOk(s, s.poppers[i]);
    }
    if pos < s.tail {
      place := Gone(pos);
      assert place in PlacesOf(s, pos);
    } else if InSlot(s, pos) {
      place := InSlotAt(Slot(pos, s.Capacity()));
      assert place in PlacesOf(s, pos);
    } else {
      assert InSlot(s, pos) || exists i: nat :: InHand(s, i, pos);
      var i: nat :| InHand(s, i, pos);
      place := InHandOf(i);
      assert place in PlacesOf(s, pos);
    }
    forall other | other in PlacesOf(s, pos)
      ensures other == place
    {
      match other
      case InSlotAt(x) => assert Genuine(s, s.slots[x].value);
      case InHandOf(i) => assert InHand(s, i, pos);
      case Gone(k) =>
    }
  }

  function Values(departed: seq<Departure>): seq<nat> {
    seq(|departed|, k requires 0 <= k < |departed| => departed[k].value)
  }

  /**
   In every interleaving values leave in the order in which Push accepted them, the ring
   never holds more than its capacity, and a ring that does not drop loses nothing to its
   producer.
   */
  lemma LeavesInPushOrder(capacity: nat, poppers: nat, dropOldest: bool, actions: seq<Action>)
    requires IsPow2(capacity) && poppers >= 1
    ensures var s := Run(Init(capacity, poppers, dropOldest), actions);
            && Values(s.departed) <= s.accepted
            && |s.accepted| - |s.departed| <= capacity
            && (!dropOldest ==> forall k :: 0 <= k < |s.departed| ==> s.departed[k].popper != 0)
  {
    RunKeepsInv(capacity, poppers, dropOldest, actions);
    RunKeepsShape(capacity, poppers, dropOldest, actions);
    var s := Run(Init(capacity, poppers, dropOldest), actions);
    assert Values(s.departed) == s.accepted[..s.tail];
  }

  lemma StepKeepsShape(s: State, a: Action)
    ensures var s' := Step(s, a);
            s'.Capacity() == s.Capacity() && s'.dropOldest == s.dropOldest && |s'.poppers| == |s.poppers|
  {
  }

  lemma {:induction false} RunKeepsShape(capacity: nat, poppers: nat, dropOldest: bool, actions: seq<Action>)
    ensures var s := Run(Init(capacity, poppers, dropOldest), actions);
            s.Capacity() == capacity && s.dropOldest == dropOldest && |s.poppers| == poppers
  {
    if actions != [] {
      RunKeepsShape(capacity, poppers, dropOldest, actions[..|actions| - 1]);
      StepKeepsShape(Run(Init(capacity, poppers, dropOldest), actions[..|actions| - 1]), actions[|actions| - 1]);
    }
  }

  /**
   With one producer neither CAS of Push can fail, so the undo store is dead code; a Push
   that finds room places its value in an empty slot; one that is rejected saw a full ring.
   */
  lemma PushNeverRetries(capacity: nat, poppers: nat, dropOldest: bool, actions: seq<Action>)
    requires IsPow2(capacity) && poppers >= 1
    ensures var s := Run(Init(capacity, poppers, dropOldest), actions);
            var s' := Step(s, Producer);
            && !s.producer.PushUndo?
            && (s.producer.PushSlot? ==> s'.producer.PushHead?)
            && (s.producer.PushHead? ==> s'.producer.PushIdle? && s'.accepted == s.accepted + [s.producer.value])
            && (s.producer.PushLoadTail? && s'.producer.PushIdle? ==> s.head - s.tail == capacity)
  {
    RunKeepsInv(capacity, poppers, dropOldest, actions);
    RunKeepsShape(capacity, poppers, dropOldest, actions);
    var s := Run(Init(capacity, poppers, dropOldest), actions);
    if s.producer.PushSlot? {
      PlaceKeepsInv(s);
    }
  }

  /**
   A Pop that returns nothing saw an empty ring; a Pop that spins on an empty slot waits for
   a popper that holds the oldest value; and a put-back always finds its slot empty.
   */
  lemma PopOutcomes(capacity: nat, poppers: nat, dropOldest: bool, actions: seq<Action>, i: nat)
    requires IsPow2(capacity) && i < poppers
    ensures var s := Run(Init(capacity, poppers, dropOldest), actions);
            i < |s.poppers| &&
            var pc := s.poppers[i];
            && (pc.PopLoadHead? && Step(s, Popper(i)).poppers[i].PopIdle? ==> s.head == s.tail)
            && (pc.PopSwap? && pc.tail == s.tail && Step(s, Popper(i)).poppers[i].PopLoadTail? && s.tail < s.head ==>
                  exists j: nat :: InHand(s, j, s.tail))
            && (pc.PopPutBack? ==> Slot(pc.tail, capacity) < |s.slots| && s.slots[Slot(pc.tail, capacity)].None?)
  {
    RunKeepsInv(capacity, poppers, dropOldest, actions);
    RunKeepsShape(capacity, poppers, dropOldest, actions);
    var s := Run(Init(capacity, poppers, dropOldest), actions);
    assert PopperOk(s, s.poppers[i]);
    SlotBelow(s.tail, capacity);
    if s.tail < s.head {
      assert InSlot(s, s.tail) || exists j: nat :: InHand(s, j, s.tail);
    }
  }
}
