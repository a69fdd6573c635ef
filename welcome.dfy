/**
 * The confirmation step of the customer flow: once a section and a
 * subsection are chosen, the "Anything else?" loop asks for confirmation and
 * delivery and writes an order and a delivery record accordingly.
 */
module Ordering {
  import opened Wrappers
  import Users
  import Items
  import Orders
  import Deliveries

  /**
   * How one pass of the loop ends: the delivery order was written, the order
   * was cancelled, the input was not accepted and the loop asks again, the
   * customer wants to choose again, or the input ran out.
   */
  datatype Outcome = Delivered(orderId: int) | Cancelled | Retry | ChooseAgain | InputEnded

  /** `str.lower()` on one character, for the ASCII letters; no other character lower-cases to one of the letters of "yes" or "no". */
  function LowerChar(c: char): char {
    if 'A' <= c <= 'Z' then (c as int + 32) as char else c
  }

  /** How an answer reads after `.lower()`. */
  datatype Answer = Yes | No | Other

  /** `s.lower() == 'yes'` gives Yes, `s.lower() == 'no'` gives No, anything else Other. */
  function AnswerOf(s: string): Answer {
    if |s| == 3 && LowerChar(s[0]) == 'y' && LowerChar(s[1]) == 'e' && LowerChar(s[2]) == 's' then Yes
    else if |s| == 2 && LowerChar(s[0]) == 'n' && LowerChar(s[1]) == 'o' then No
    else Other
  }

  /** What the loop ends with, apart from the id a delivery order gets. */
  datatype Ending = EndDelivered | EndCancelled | EndChooseAgain | EndInput

  function EndingOf(outcome: Outcome): Ending {
    match outcome
    case Delivered(_) => EndDelivered
    case Cancelled => EndCancelled
    case ChooseAgain => EndChooseAgain
    case _ => EndInput
  }

  /** How one pass of the loop ends: the loop stops, or it asks again from `next`. */
  datatype Pass = Stops(ending: Ending, next: nat) | Again(next: nat)

  /**
   * One pass of the "Anything else?" loop reading its answers from `input`
   * at `pos`: "yes" to "Anything else?" leaves to choose again; "no" then
   * "no" cancels; "no", "yes", "yes" places a delivery order; any other
   * answer to one of the three questions makes the loop ask again; running
   * out of answers ends the loop. `next` is where the pass stops reading.
   */
  function PassAt(input: seq<string>, pos: nat): (p: Pass)
    requires pos < |input|
    ensures pos < p.next <= |input|
    ensures p == Stops(EndDelivered, p.next) <==>
      pos + 3 == p.next && AnswerOf(input[pos]) == No && AnswerOf(input[pos + 1]) == Yes && AnswerOf(input[pos + 2]) == Yes
    ensures p == Stops(EndCancelled, p.next) <==>
      pos + 2 == p.next && AnswerOf(input[pos]) == No && AnswerOf(input[pos + 1]) == No
    ensures p == Stops(EndChooseAgain, p.next) <==> AnswerOf(input[pos]) == Yes
    ensures p.Stops? && p.ending == EndInput ==> p.next == |input|
  {
    if AnswerOf(input[pos]) == Yes then Stops(EndChooseAgain, pos + 1)
    else if AnswerOf(input[pos]) != No then Again(pos + 1)
    else if pos + 1 == |input| then Stops(EndInput, pos + 1)
    else if AnswerOf(input[pos + 1]) == Yes then
      if pos + 2 == |input| then Stops(EndInput, pos + 2)
      else if AnswerOf(input[pos + 2]) == Yes then Stops(EndDelivered, pos + 3)
      else Again(pos + 3)
    else if AnswerOf(input[pos + 1]) == No then Stops(EndCancelled, pos + 2)
    else Again(pos + 2)
  }

  /**
   * Where the loop stops when it reads its answers from `input` starting at
   * `pos`, and how many answers it has read by then: the first pass that
   * does not ask again, or the end of the input.
   */
  function LoopEnd(input: seq<string>, pos: nat): (e: (Ending, nat))
    requires pos <= |input|
    ensures pos <= e.1 <= |input|
    decreases |input| - pos
  {
    if pos == |input| then (EndInput, pos)
    else
      match PassAt(input, pos)
      case Stops(ending, next) => (ending, next)
      case Again(next) => LoopEnd(input, next)
  }

  /**
   * The answers that end the loop at `n`, having started reading at `pos`: a
   * delivery order after "no", "yes", "yes", a cancellation after "no",
   * "no", choosing again after "yes"; running out of answers reads all of
   * them.
   */
  predicate EndsOn(input: seq<string>, pos: nat, e: Ending, n: nat)
    requires n <= |input|
  {
    && (e == EndDelivered ==> pos + 3 <= n && AnswerOf(input[n - 3]) == No && AnswerOf(input[n - 2]) == Yes && AnswerOf(input[n - 1]) == Yes)
    && (e == EndCancelled ==> pos + 2 <= n && AnswerOf(input[n - 2]) == No && AnswerOf(input[n - 1]) == No)
    && (e == EndChooseAgain ==> pos < n && AnswerOf(input[n - 1]) == Yes)
    && (e == EndInput ==> n == |input|)
  }

  /** The loop's ending is fixed by the last answers it reads. */
  lemma {:induction false} LoopEndShape(input: seq<string>, pos: nat)
    requires pos <= |input|
    ensures EndsOn(input, pos, LoopEnd(input, pos).0, LoopEnd(input, pos).1)
    decreases |input| - pos
  {
    if pos < |input| && PassAt(input, pos).Again? {
      LoopEndShape(input, PassAt(input, pos).next);
    }
  }

  class Welcome {
    const orderDb: Orders.OrderDatabase
    const userDb: Users.UserDatabase
    const itemDb: Items.ItemDatabase
    const deliveryDb: Deliveries.DeliveryDatabase
    var isAdmin: bool

    ghost predicate Valid()
      reads this, orderDb, deliveryDb
    {
      orderDb.Valid() && deliveryDb.Valid()
    }

    constructor (orderDb: Orders.OrderDatabase, userDb: Users.UserDatabase, itemDb: Items.ItemDatabase, deliveryDb: Deliveries.DeliveryDatabase)
      ensures this.orderDb == orderDb && this.userDb == userDb
      ensures this.itemDb == itemDb && this.deliveryDb == deliveryDb
      ensures !isAdmin
    {
      this.orderDb := orderDb;
      this.userDb := userDb;
      this.itemDb := itemDb;
      this.deliveryDb := deliveryDb;
      isAdmin := false;
    }

    /**
     * One answer to "Confirm your order", plus the delivery answer when the
     * confirmation is "yes". The subsection is the choice2-th name of the
     * menu list and choice2 itself is stored as the order's item.
     *  - yes, yes: a "Completed" order is appended and the delivery row of its
     *    id, read back as the latest id, is set to true;
     *  - no: the delivery row of the latest order existing before the call
     *    (NULL when there is none) is set to false, then a "Deleted" order is
     *    appended, so that row never belongs to the new order;
     *  - anything else: nothing is written and the loop asks again.
     * Stock counts and users are never touched.
     */
    method ConfirmStep(section: string, subsections: seq<string>, choice2: int, confirm: string, delivery: string, now: Orders.Timestamp)
      returns (outcome: Outcome)
      requires 1 <= choice2 <= |subsections|
      requires Valid()
      modifies orderDb, deliveryDb
      ensures Valid()
      ensures unchanged(itemDb) && unchanged(userDb)
      ensures outcome.Delivered? || outcome.Cancelled? || outcome.Retry?
      ensures outcome.Delivered? <==> AnswerOf(confirm) == Yes && AnswerOf(delivery) == Yes
      ensures outcome.Cancelled? <==> AnswerOf(confirm) == No
      ensures outcome.Retry? ==> unchanged(orderDb) && unchanged(deliveryDb)
      ensures outcome.Delivered? ==>
        && outcome.orderId == orderDb.lastId == old(orderDb.lastId) + 1
        && orderDb.State() == Orders.Appended(old(orderDb.State()), section, subsections[choice2 - 1], choice2, Orders.Completed, now)
        && deliveryDb.State() == Deliveries.Upserted(old(deliveryDb.State()), Some(outcome.orderId), true)
        && (forall i :: 0 <= i < |old(orderDb.rows)| ==> old(orderDb.rows)[i].id < outcome.orderId)
      ensures outcome.Cancelled? ==>
        && deliveryDb.State() == Deliveries.Upserted(old(deliveryDb.State()), Orders.LatestId(old(orderDb.rows)), false)
        && orderDb.State() == Orders.Appended(old(orderDb.State()), section, subsections[choice2 - 1], choice2, Orders.Deleted, now)
        && Orders.LatestId(old(orderDb.rows)) != Some(orderDb.lastId)
    {
      var subsection := subsections[choice2 - 1];
      if AnswerOf(confirm) == Yes {
        if AnswerOf(delivery) == Yes {
          var orderId := PlaceDelivery(section, subsection, choice2, now);
          outcome := Delivered(orderId);
        } else {
          // The pickup branch tests the confirm answer a second time instead
          // of the delivery answer; that answer is "yes" here, so control
          // always reaches "Invalid input" and the loop asks again.
          outcome := Retry;
        }
      } else if AnswerOf(confirm) == No {
        CancelOrder(section, subsection, choice2, now);
        outcome := Cancelled;
      } else {
        outcome := Retry;
      }
    }

    /**
     * The writes of confirm = yes, delivery = yes: append a "Completed" order,
     * read its id back as the largest id, and upsert the delivery row
     * (that id, true). The id exceeds every earlier order id and exactly one
     * delivery row, flagged true, belongs to it afterwards.
     */
    method PlaceDelivery(section: string, subsection: string, item: int, now: Orders.Timestamp) returns (orderId: int)
      requires Valid()
      modifies orderDb, deliveryDb
      ensures Valid()
      ensures orderId == orderDb.lastId == old(orderDb.lastId) + 1
      ensures orderDb.State() == Orders.Appended(old(orderDb.State()), section, subsection, item, Orders.Completed, now)
      ensures deliveryDb.State() == Deliveries.Upserted(old(deliveryDb.State()), Some(orderId), true)
      ensures forall i :: 0 <= i < |old(orderDb.rows)| ==> old(orderDb.rows)[i].id < orderId
      ensures exists i :: 0 <= i < |deliveryDb.rows| && deliveryDb.rows[i].orderId == Some(orderId)
      ensures forall i :: 0 <= i < |deliveryDb.rows| && deliveryDb.rows[i].orderId == Some(orderId) ==> deliveryDb.rows[i].requiresDelivery
      ensures forall i, j :: 0 <= i < |deliveryDb.rows| && 0 <= j < |deliveryDb.rows| && deliveryDb.rows[i].orderId == Some(orderId) && deliveryDb.rows[j].orderId == Some(orderId) ==> i == j
    {
      orderDb.InsertOrder(section, subsection, item, Orders.Completed, now);
      Orders.AppendedIsLatest(old(orderDb.State()), section, subsection, item, Orders.Completed, now);
      var latest := Orders.LatestId(orderDb.rows);
      orderId := latest.value;
      deliveryDb.AddDeliveryStatus(Some(orderId), true);
      Deliveries.UpsertSingleRecord(old(deliveryDb.State()), orderId, true);
    }

    /**
     * The writes of confirm = no: upsert the delivery row (latest existing
     * order id or NULL, false), then append a "Deleted" order. The delivery
     * row written never belongs to the order appended here.
     */
    method CancelOrder(section: string, subsection: string, item: int, now: Orders.Timestamp)
      requires Valid()
      modifies orderDb, deliveryDb
      ensures Valid()
      ensures deliveryDb.State() == Deliveries.Upserted(old(deliveryDb.State()), Orders.LatestId(old(orderDb.rows)), false)
      ensures orderDb.State() == Orders.Appended(old(orderDb.State()), section, subsection, item, Orders.Deleted, now)
      ensures Orders.LatestId(old(orderDb.rows)) != Some(orderDb.lastId)
    {
      var latest := Orders.LatestId(orderDb.rows);
      Orders.LatestBelowCounter(orderDb.State());
      deliveryDb.AddDeliveryStatus(latest, false);
      orderDb.InsertOrder(section, subsection, item, Orders.Deleted, now);
    }

    /**
     * One pass of the `while True` loop around the confirmation, reading its
     * answers from `input` at `pos`: "Anything else?" first ("yes" leaves to
     * choose again, "no" goes on to confirmation, anything else asks again),
     * then the confirmation and, after a "yes", the delivery answer. A pass
     * that ends in Retry writes nothing and the loop goes on where LoopEnd
     * does; any other pass ends where LoopEnd ends.
     */
    method ConfirmPass(section: string, subsections: seq<string>, choice2: int, input: seq<string>, pos: nat, now: Orders.Timestamp)
      returns (outcome: Outcome, next: nat)
      requires 1 <= choice2 <= |subsections|
      requires pos < |input|
      requires Valid()
      modifies orderDb, deliveryDb
      ensures Valid()
      ensures pos < next <= |input|
      ensures outcome.Retry? ==> PassAt(input, pos) == Again(next)
      ensures !outcome.Retry? ==> PassAt(input, pos) == Stops(EndingOf(outcome), next)
      ensures outcome.Retry? || outcome.ChooseAgain? || outcome.InputEnded? ==> unchanged(orderDb) && unchanged(deliveryDb)
      ensures outcome.Delivered? ==>
        && outcome.orderId == old(orderDb.lastId) + 1
        && orderDb.State() == Orders.Appended(old(orderDb.State()), section, subsections[choice2 - 1], choice2, Orders.Completed, now)
        && deliveryDb.State() == Deliveries.Upserted(old(deliveryDb.State()), Some(outcome.orderId), true)
      ensures outcome.Cancelled? ==>
        && deliveryDb.State() == Deliveries.Upserted(old(deliveryDb.State()), Orders.LatestId(old(orderDb.rows)), false)
        && orderDb.State() == Orders.Appended(old(orderDb.State()), section, subsections[choice2 - 1], choice2, Orders.Deleted, now)
    {
      next := pos + 1;
      var more := AnswerOf(input[pos]);
      if more == Yes {
        return ChooseAgain, next;
      } else if more != No {
        return Retry, next;
      }
      if next == |input| {
        return InputEnded, next;
      }
      var confirm := input[next];
      next := next + 1;
      var delivery := "";
      if AnswerOf(confirm) == Yes {
        if next == |input| {
          return InputEnded, next;
        }
        delivery := input[next];
        next := next + 1;
      }
      outcome := ConfirmStep(section, subsections, choice2, confirm, delivery, now);
    }

    /**
     * The `while True` loop: passes that ask again write nothing, and the
     * loop ends at the first pass that does not ask again, or when the
     * answers run out, exactly where LoopEnd says. Only that last pass
     * writes, as ConfirmStep does.
     */
    method ConfirmLoop(section: string, subsections: seq<string>, choice2: int, input: seq<string>, now: Orders.Timestamp)
      returns (outcome: Outcome, consumed: nat)
      requires 1 <= choice2 <= |subsections|
      requires Valid()
      modifies orderDb, deliveryDb
      ensures Valid()
      ensures unchanged(itemDb) && unchanged(userDb)
      ensures consumed <= |input|
      ensures !outcome.Retry?
      ensures (EndingOf(outcome), consumed) == LoopEnd(input, 0)
      ensures EndsOn(input, 0, EndingOf(outcome), consumed)
      ensures outcome.ChooseAgain? || outcome.InputEnded? ==> unchanged(orderDb) && unchanged(deliveryDb)
      ensures outcome.Delivered? ==>
        && outcome.orderId == old(orderDb.lastId) + 1
        && orderDb.State() == Orders.Appended(old(orderDb.State()), section, subsections[choice2 - 1], choice2, Orders.Completed, now)
        && deliveryDb.State() == Deliveries.Upserted(old(deliveryDb.State()), Some(outcome.orderId), true)
      ensures outcome.Cancelled? ==>
        && deliveryDb.State() == Deliveries.Upserted(old(deliveryDb.State()), Orders.LatestId(old(orderDb.rows)), false)
        && orderDb.State() == Orders.Appended(old(orderDb.State()), section, subsections[choice2 - 1], choice2, Orders.Deleted, now)
    {
      consumed := 0;
      while consumed < |input|
        invariant consumed <= |input|
        invariant LoopEnd(input, consumed) == LoopEnd(input, 0)
        invariant Valid()
        invariant unchanged(orderDb) && unchanged(deliveryDb)
        decreases |input| - consumed
      {
        outcome, consumed := ConfirmPass(section, subsections, choice2, input, consumed, now);
        if !outcome.Retry? {
          LoopEndShape(input, 0);
          return;
        }
      }
      LoopEndShape(input, 0);
      return InputEnded, consumed;
    }
  }
}
