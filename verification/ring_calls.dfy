/**
 What the calls of the broadcast ring (spsc_ring.go) mean to their callers: which values are
 accepted, when a value is dropped, and what a Push or a Pop does that runs on its own.
 */
module RingCalls {
  import opened Common
  import opened Repetition
  import opened Masking
  import opened SpscRing

  // Values

  /** This action starts a Push. */
  predicate Offers(s: State, a: Action) {
    a.Offer? && s.producer.PushIdle? && |s.poppers| > 0 && s.Capacity() > 0
  }

  /** The arguments of every Push that was called in a run, in order. */
  function Offered(s: State, actions: seq<Action>): seq<nat> {
    if actions == [] then []
    else
      var before, a := actions[..|actions| - 1], actions[|actions| - 1];
      Offered(s, before) + if Offers(Run(s, before), a) then [a.value] else []
  }

  /** The arguments of every Push that was accepted in a run, in order: each the latest offer at that time. */
  function AcceptedOffers(s: State, actions: seq<Action>): seq<nat> {
    if actions == [] then []
    else
      var before, a := actions[..|actions| - 1], actions[|actions| - 1];
      AcceptedOffers(s, before)
      + if |Run(s, actions).accepted| > |Run(s, before).accepted| && Offered(s, before) != []
        then [Last(Offered(s, before))] else []
  }

  function Last(values: seq<nat>): nat
    requires values != []
  {
    values[|values| - 1]
  }

  /** The value that a Push carries. */
  function Carried(pc: PushPc): seq<nat> {
    if pc.PushIdle? then [] else [pc.value]
  }

  /** A Push under way carries its argument, the latest offer. */
  ghost predicate CarriesLatest(s: State, offered: seq<nat>) {
    !s.producer.PushIdle? ==> offered != [] && s.producer.value == Last(offered)
  }

  /** A step starts a Push with its argument, keeps the value of one under way, or ends one. */
  lemma StepCarries(s: State, a: Action)
    ensures var s' := Step(s, a);
            && (Offers(s, a) ==> s'.producer == PushLoadHead(a.value))
            && (!Offers(s, a) && !s'.producer.PushIdle? ==>
                  !s.producer.PushIdle? && s'.producer.value == s.producer.value)
            && (s'.accepted == s.accepted
                || (!s.producer.PushIdle? && s'.producer.PushIdle? && s'.accepted == s.accepted + [s.producer.value]))
  {
  }

  lemma {:induction false} RunCarries(capacity: nat, poppers: nat, dropOldest: bool, actions: seq<Action>)
    ensures var init := Init(capacity, poppers, dropOldest);
            && CarriesLatest(Run(init, actions), Offered(init, actions))
            && Run(init, actions).accepted == AcceptedOffers(init, actions)
  {
    if actions != [] {
      var init, before := Init(capacity, poppers, dropOldest), actions[..|actions| - 1];
      RunCarries(capacity, poppers, dropOldest, before);
      StepCarries(Run(init, before), actions[|actions| - 1]);
    }
  }

  /** In every interleaving the accepted values are the arguments of the Push calls that were accepted, in order. */
  lemma AcceptsItsArguments(capacity: nat, poppers: nat, dropOldest: bool, actions: seq<Action>)
    ensures var init := Init(capacity, poppers, dropOldest);
            Run(init, actions).accepted == AcceptedOffers(init, actions)
  {
    RunCarries(capacity, poppers, dropOldest, actions);
  }

  /** A ring that drops its oldest value has accepted all that was offered, but for the Push under way. */
  lemma {:induction false} DroppingRingAcceptsAll(capacity: nat, poppers: nat, actions: seq<Action>)
    requires IsPow2(capacity) && poppers >= 1
    ensures var init := Init(capacity, poppers, true);
            var s := Run(init, actions);
            Offered(init, actions) == s.accepted + Carried(s.producer)
  {
    var init := Init(capacity, poppers, true);
    if actions != [] {
      var before, a := actions[..|actions| - 1], actions[|actions| - 1];
      DroppingRingAcceptsAll(capacity, poppers, before);
      PushNeverRetries(capacity, poppers, true, before);
      RunKeepsShape(capacity, poppers, true, before);
      DroppingStep(Run(init, before), a);
    }
  }

  lemma DroppingStep(s: State, a: Action)
    requires s.dropOldest && |s.poppers| >= 1 && s.Capacity() >= 1
    requires s.producer.PushHead? ==> PushStep(s).accepted == s.accepted + [s.producer.value]
    ensures var s' := Step(s, a);
            s'.accepted + Carried(s'.producer)
            == s.accepted + Carried(s.producer) + if Offers(s, a) then [a.value] else []
  {
  }

  // Dropping

  /** A Push goes on to place its value exactly if the ring has room; in a full ring it drops or rejects. */
  lemma DropsOnlyWhenFull(capacity: nat, poppers: nat, dropOldest: bool, actions: seq<Action>)
    requires IsPow2(capacity) && poppers >= 1
    requires Run(Init(capacity, poppers, dropOldest), actions).producer.PushLoadTail?
    ensures var s := Run(Init(capacity, poppers, dropOldest), actions);
            var pc := Step(s, Producer).producer;
            if s.head - s.tail < capacity then pc == PushSlot(s.producer.value, s.head)
            else pc == if dropOldest then PushDropping(s.producer.value) else PushIdle
  {
    RunKeepsInv(capacity, poppers, dropOldest, actions);
    RunKeepsShape(capacity, poppers, dropOldest, actions);
  }

  /** At no time does the ring hold as many values as it has slots. */
  ghost predicate NeverFull(s: State, actions: seq<Action>) {
    forall k :: 0 <= k <= |actions| ==> HasRoom(Run(s, actions[..k]))
  }

  ghost predicate HasRoom(s: State) {
    s.head - s.tail < s.Capacity()
  }

  /** A ring that is never full loses nothing to its producer. */
  lemma NeverFullNeverDrops(capacity: nat, poppers: nat, dropOldest: bool, actions: seq<Action>)
    requires IsPow2(capacity) && poppers >= 1 && NeverFull(Init(capacity, poppers, dropOldest), actions)
    ensures var s := Run(Init(capacity, poppers, dropOldest), actions);
            forall k :: 0 <= k < |s.departed| ==> s.departed[k].popper != 0
  {
    NeverDrops(capacity, poppers, dropOldest, actions);
  }

  ghost predicate Idle(s: State) {
    && |s.poppers| >= 1 && s.poppers[0].PopIdle? && !s.producer.PushDropping?
    && forall k :: 0 <= k < |s.departed| ==> s.departed[k].popper != 0
  }

  lemma {:induction false} NeverDrops(capacity: nat, poppers: nat, dropOldest: bool, actions: seq<Action>)
    requires IsPow2(capacity) && poppers >= 1 && NeverFull(Init(capacity, poppers, dropOldest), actions)
    ensures Idle(Run(Init(capacity, poppers, dropOldest), actions))
  {
    if actions != [] {
      var init, n := Init(capacity, poppers, dropOldest), |actions| - 1;
      forall k | 0 <= k <= n
        ensures HasRoom(Run(init, actions[..n][..k]))
      {
        assert actions[..n][..k] == actions[..k] && HasRoom(Run(init, actions[..k]));
      }
      NeverDrops(capacity, poppers, dropOldest, actions[..n]);
      RunKeepsInv(capacity, poppers, dropOldest, actions[..n]);
      assert HasRoom(Run(init, actions[..n]));
      StaysIdle(Run(init, actions[..n]), actions[n]);
    }
  }

  lemma StaysIdle(s: State, a: Action)
    requires Inv(s) && Idle(s) && HasRoom(s)
    ensures Idle(Step(s, a))
  {
  }

  // Calls on their own

  /** One goroutine takes n steps while all others stand still. */
  function Alone(s: State, a: Action, n: nat): State {
    Iterate(By(a), s, n)
  }

  function By(a: Action): State -> State {
    (s: State) => Step(s, a)
  }

  lemma FourSteps(s: State, a: Action, s1: State, s2: State, s3: State, s4: State)
    requires Step(s, a) == s1 && Step(s1, a) == s2 && Step(s2, a) == s3 && Step(s3, a) == s4
    ensures Alone(s, a, 1) == s1 && Alone(s, a, 2) == s2 && Alone(s, a, 3) == s3 && Alone(s, a, 4) == s4
  {
    IterateFour(By(a), s, s1, s2, s3, s4);
  }

  /** A Push into a ring with room is accepted. */
  lemma PushAlone(s: State, value: nat)
    requires Inv(s) && s.producer.PushIdle? && HasRoom(s)
    ensures var s' := Alone(Step(s, Offer(value)), Producer, 4);
            && s'.accepted == s.accepted + [value] && s'.departed == s.departed && s'.producer.PushIdle?
            && s'.head == s.head + 1 && s'.tail == s.tail && InSlot(s', s.head)
  {
    SlotAtHeadEmpty(s);
    var x := Slot(s.head, s.Capacity());
    var s1 := s.(producer := PushLoadTail(value, s.head));
    var s2 := s.(producer := PushSlot(value, s.head));
    var s3 := s.(slots := s.slots[x := Some(Cell(value, s.head))], producer := PushHead(value, s.head));
    FourSteps(Step(s, Offer(value)), Producer, s1, s2, s3, Step(s3, Producer));
  }

  /** A Push into a full ring that does not drop is rejected, and changes nothing. */
  lemma PushRejected(s: State, value: nat)
    requires Inv(s) && s.producer.PushIdle? && !HasRoom(s) && !s.dropOldest
    ensures Alone(Step(s, Offer(value)), Producer, 2) == s
  {
    var s1 := s.(producer := PushLoadTail(value, s.head));
    FourSteps(Step(s, Offer(value)), Producer, s1, s, Step(s, Producer), Step(Step(s, Producer), Producer));
  }

  /** A Push into a full ring that drops starts a Pop of its own. */
  lemma PushDrops(s: State, value: nat)
    requires Inv(s) && s.producer.PushIdle? && !HasRoom(s) && s.dropOldest
    ensures Alone(Step(s, Offer(value)), Producer, 2) ==
            s.(producer := PushDropping(value), poppers := s.poppers[0 := PopLoadTail])
  {
    var s1 := s.(producer := PushLoadTail(value, s.head));
    var s2 := s.(producer := PushDropping(value), poppers := s.poppers[0 := PopLoadTail]);
    FourSteps(Step(s, Offer(value)), Producer, s1, s2, Step(s2, Producer), Step(Step(s2, Producer), Producer));
  }

  lemma PopLooks(s: State, i: nat)
    requires i < |s.poppers| && s.poppers[i].PopLoadTail? && s.tail < s.head && s.Capacity() >= 1
    ensures Step(s, Popper(i)) == PopAt(s, i, PopLoadHead(s.tail))
    ensures Step(PopAt(s, i, PopLoadHead(s.tail)), Popper(i)) == PopAt(s, i, PopSwap(s.tail))
  {
  }

  lemma PopLifts(s: State, i: nat, x: nat, cell: Cell)
    requires i < |s.poppers| && s.Capacity() >= 1
    requires x == Slot(s.tail, s.Capacity()) < |s.slots| && s.slots[x] == Some(cell)
    ensures Step(PopAt(s, i, PopSwap(s.tail)), Popper(i)) ==
            PopAt(s, i, PopCas(s.tail, cell)).(slots := s.slots[x := None])
  {
    assert PopAt(s, i, PopSwap(s.tail)).Capacity() == s.Capacity();
  }

  lemma PopTakes(s: State, i: nat, x: nat, cell: Cell)
    requires i < |s.poppers| && x < |s.slots|
    ensures Step(PopAt(s, i, PopCas(s.tail, cell)).(slots := s.slots[x := None]), Popper(i)) ==
            PopReturns(s, i).(slots := s.slots[x := None], tail := s.tail + 1,
                              departed := s.departed + [Departure(i, cell.value)])
  {
  }

  lemma PopMoves(s: State, i: nat, x: nat, cell: Cell)
    requires i < |s.poppers| && s.poppers[i].PopLoadTail? && s.tail < s.head && s.Capacity() >= 1
    requires x == Slot(s.tail, s.Capacity()) < |s.slots| && s.slots[x] == Some(cell)
    ensures Alone(s, Popper(i), 4) ==
            PopReturns(s, i).(slots := s.slots[x := None], tail := s.tail + 1,
                              departed := s.departed + [Departure(i, cell.value)])
  {
    PopLooks(s, i);
    PopLifts(s, i, x, cell);
    PopTakes(s, i, x, cell);
    FourSteps(s, Popper(i), PopAt(s, i, PopLoadHead(s.tail)), PopAt(s, i, PopSwap(s.tail)),
              PopAt(s, i, PopCas(s.tail, cell)).(slots := s.slots[x := None]),
              PopReturns(s, i).(slots := s.slots[x := None], tail := s.tail + 1,
                                departed := s.departed + [Departure(i, cell.value)]));
  }

  /** A Pop takes the oldest value, unless another popper has it in hand; the Push that it is part of goes on. */
  lemma PopAlone(s: State, i: nat)
    requires Inv(s) && i < |s.poppers| && s.poppers[i].PopLoadTail? && s.tail < s.head && InSlot(s, s.tail)
    ensures var s' := Alone(s, Popper(i), 4);
            && s'.departed == s.departed + [Departure(i, s.accepted[s.tail])]
            && s'.tail == s.tail + 1 && s'.head == s.head && s'.accepted == s.accepted && s'.poppers[i].PopIdle?
            && s'.producer == if i == 0 then PushLoadHead(s.producer.value) else s.producer
  {
    var x := Slot(s.tail, s.Capacity());
    var cell := s.slots[x].value;
    assert Genuine(s, cell);
    PopMoves(s, i, x, cell);
  }

  /** A Pop of an empty ring returns nothing. */
  lemma PopEmpty(s: State, i: nat)
    requires Inv(s) && 0 < i < |s.poppers| && s.poppers[i].PopIdle? && s.tail == s.head
    ensures Alone(Step(s, StartPop(i)), Popper(i), 2) == s
  {
    var s0, s1 := PopAt(s, i, PopLoadTail), PopAt(s, i, PopLoadHead(s.tail));
    FourSteps(s0, Popper(i), s1, s, Step(s, Popper(i)), Step(Step(s, Popper(i)), Popper(i)));
  }
}
