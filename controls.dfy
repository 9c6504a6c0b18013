/** Button input (Controls.c): polling with a per-GPIO debounce, and a queue
    of GPIO numbers filled by the edge interrupt and drained by the game task.
    GPIO levels and the millisecond clock are inputs; the queue is a sequence. */
module Controls {
  import opened Config

  const BTN_LEFT: int := 4
  const BTN_RIGHT: int := 5
  const BTN_ROTATE: int := 6
  const BTN_FASTER: int := 7

  /** The queue is created with room for this many events. */
  const QUEUE_CAPACITY: int := 8

  /** The debounce test: the time since the last accepted press of that GPIO,
      computed in `uint32_t` (so it wraps around), must exceed
      `BUTTON_DEBOUNCE_MS`. */
  predicate Accepts(now: int, last: int)
    requires IsU32(now) && IsU32(last)
  {
    SubU32(now, last) > BUTTON_DEBOUNCE_MS
  }

  /** The levels of the four button inputs at one instant; 0 means pressed
      (the inputs are pulled up and the buttons pull them low). */
  datatype Levels = Levels(left: int, right: int, rotate: int, faster: int)

  function LevelOf(levels: Levels, gpio: int): int {
    if gpio == BTN_LEFT then levels.left
    else if gpio == BTN_RIGHT then levels.right
    else if gpio == BTN_ROTATE then levels.rotate
    else if gpio == BTN_FASTER then levels.faster
    else 1
  }

  /** controls_all_buttons_pressed: all four inputs read low. */
  function AllButtonsPressed(levels: Levels): (all: bool)
    ensures all <==> forall g :: BTN_LEFT <= g <= BTN_FASTER ==> LevelOf(levels, g) == 0
  {
    assert LevelOf(levels, BTN_LEFT) == levels.left;
    assert LevelOf(levels, BTN_RIGHT) == levels.right;
    assert LevelOf(levels, BTN_ROTATE) == levels.rotate;
    assert LevelOf(levels, BTN_FASTER) == levels.faster;
    levels.left == 0 && levels.right == 0 && levels.rotate == 0 && levels.faster == 0
  }

  /** A timestamp table that is a static array of `uint32_t`, one entry per
      GPIO number, zero at boot. */
  predicate IsTable(t: seq<int>, gpioCount: int) {
    |t| == gpioCount && forall i :: 0 <= i < |t| ==> IsU32(t[i])
  }

  /** The verdict of check_button_pressed for `gpio` against the table `t`. */
  predicate Pressed(levels: Levels, gpio: int, now: int, t: seq<int>)
    requires 0 <= gpio < |t| && IsU32(now) && IsU32(t[gpio])
  {
    LevelOf(levels, gpio) == 0 && Accepts(now, t[gpio])
  }

  /** The table after one poll of `gpio` at `now`: its timestamp moves to
      `now` exactly when the press is reported. */
  function PollOne(t: seq<int>, levels: Levels, gpio: int, now: int): (r: seq<int>)
    requires IsTable(t, |t|) && 0 <= gpio < |t| && IsU32(now)
    ensures IsTable(r, |t|)
    ensures forall g :: 0 <= g < |t| && g != gpio ==> r[g] == t[g]
  {
    if Pressed(levels, gpio, now, t) then t[gpio := now] else t
  }

  /** Two polls of one button no more than `BUTTON_DEBOUNCE_MS` apart are
      reported at most once, whatever the levels at either poll and whatever
      the stored timestamp: the first accepted poll moves the timestamp to
      `t1`, and the second then sees too small a difference. */
  lemma AtMostOnceWithinDebounce(t: seq<int>, gpio: int, l1: Levels, t1: int, l2: Levels, t2: int)
    requires IsTable(t, |t|) && 0 <= gpio < |t| && IsU32(t1) && IsU32(t2)
    requires SubU32(t2, t1) <= BUTTON_DEBOUNCE_MS
    ensures var after := PollOne(t, l1, gpio, t1);
      !(Pressed(l1, gpio, t1, t) && Pressed(l2, gpio, t2, after))
  {
  }

  /** The debounce difference is taken in `uint32_t`: when the clock has not
      wrapped since the last press the plain difference is compared, and when
      it has (`now < last`), the difference across the wrap, so a timestamp
      that looks "in the future" counts as long ago unless it lies within
      `BUTTON_DEBOUNCE_MS` of the wrap. */
  lemma DebounceAcrossWrap(now: int, last: int)
    requires IsU32(now) && IsU32(last)
    ensures now >= last ==> (Accepts(now, last) <==> now - last > BUTTON_DEBOUNCE_MS)
    ensures now < last ==> (Accepts(now, last) <==> now + U32 - last > BUTTON_DEBOUNCE_MS)
    ensures now < last ==> (Accepts(now, last) <==> last - now < U32 - BUTTON_DEBOUNCE_MS)
  {
  }

  /** The polling table after the four buttons have been polled once at
      `now`, in the order left, right, rotate, faster. Each button only
      touches its own entry, so each is judged against the table as it was
      before the first poll, and exactly the accepted buttons have their
      timestamp moved to `now`. */
  function Polled(t: seq<int>, levels: Levels, now: int): (r: seq<int>)
    requires IsTable(t, |t|) && |t| > BTN_FASTER && IsU32(now)
    ensures IsTable(r, |t|)
    ensures forall g :: 0 <= g < |t| ==>
      r[g] == if BTN_LEFT <= g <= BTN_FASTER && Pressed(levels, g, now, t) then now else t[g]
  {
    var t1 := PollOne(t, levels, BTN_LEFT, now);
    var t2 := PollOne(t1, levels, BTN_RIGHT, now);
    var t3 := PollOne(t2, levels, BTN_ROTATE, now);
    PollOne(t3, levels, BTN_FASTER, now)
  }

  class Controls {
    /** The three static `last_pressed_time` tables: of check_button_pressed,
        of controls_get_event and of controls_wait_event. */
    const pollTimes: array<int>
    const eventTimes: array<int>
    const waitTimes: array<int>
    /** Whether the queue exists (`s_button_queue != NULL`). */
    var queueCreated: bool
    /** The queued GPIO numbers, oldest first. */
    var queue: seq<int>

    ghost predicate Valid()
      reads this, pollTimes, eventTimes, waitTimes
    {
      && pollTimes != eventTimes && pollTimes != waitTimes && eventTimes != waitTimes
      && pollTimes.Length > BTN_FASTER
      && IsTable(pollTimes[..], pollTimes.Length)
      && IsTable(eventTimes[..], pollTimes.Length)
      && IsTable(waitTimes[..], pollTimes.Length)
      && |queue| <= QUEUE_CAPACITY
      && (forall i :: 0 <= i < |queue| ==> 0 <= queue[i] < pollTimes.Length)
      && (!queueCreated ==> queue == [])
    }

    /** The state at boot: all timestamps 0, no queue yet. `gpioCount` is
        `GPIO_NUM_MAX`, the size of each table. */
    constructor (gpioCount: int)
      requires gpioCount > BTN_FASTER
      ensures Valid() && fresh(pollTimes) && fresh(eventTimes) && fresh(waitTimes)
      ensures pollTimes.Length == gpioCount
      ensures forall i :: 0 <= i < gpioCount ==> pollTimes[i] == 0 && eventTimes[i] == 0 && waitTimes[i] == 0
      ensures !queueCreated && queue == []
    {
      pollTimes := new int[gpioCount](_ => 0);
      eventTimes := new int[gpioCount](_ => 0);
      waitTimes := new int[gpioCount](_ => 0);
      queueCreated := false;
      queue := [];
    }

    /** The queue part of init_controls: the queue is created, empty, unless
        it already exists. */
    method CreateQueue()
      requires Valid()
      modifies this
      ensures Valid() && queueCreated
      ensures queue == old(queue)
    {
      if !queueCreated {
        queueCreated := true;
        queue := [];
      }
    }

    /** gpio_isr_handler for a falling edge on `gpio`: nothing without a
        queue; otherwise the GPIO number is appended, unless the queue is
        full, in which case the new event is dropped. */
    method IsrEnqueue(gpio: int)
      requires Valid() && BTN_LEFT <= gpio <= BTN_FASTER
      modifies this`queue
      ensures Valid()
      ensures queue == if queueCreated && |old(queue)| < QUEUE_CAPACITY then old(queue) + [gpio] else old(queue)
    {
      if !queueCreated {
        return;
      }
      if |queue| < QUEUE_CAPACITY {
        queue := queue + [gpio];
      }
    }

    /** check_button_pressed: a press is reported when the input reads low and
        the debounce test against this function's own table passes; only then
        is the GPIO's timestamp moved to `now`. */
    method CheckButtonPressed(gpio: int, level: int, now: int) returns (pressed: bool)
      requires Valid() && 0 <= gpio < pollTimes.Length && IsU32(now)
      modifies pollTimes
      ensures Valid()
      ensures pressed <==> level == 0 && Accepts(now, old(pollTimes[gpio]))
      ensures pressed ==> pollTimes[..] == old(pollTimes[..])[gpio := now]
      ensures !pressed ==> pollTimes[..] == old(pollTimes[..])
    {
      pressed := false;
      if level == 0 {
        if SubU32(now, pollTimes[gpio]) > BUTTON_DEBOUNCE_MS {
          pollTimes[gpio] := now;
          pressed := true;
        }
      }
    }

    /** controls_get_event: without a queue, or with an empty one, reports
        nothing and consumes nothing. Otherwise it removes the oldest event
        and reports it only if it passes the debounce test against this
        function's own table (a rejected event is still consumed). */
    method GetEvent(now: int) returns (event: Option<int>)
      requires Valid() && IsU32(now)
      modifies this`queue, eventTimes
      ensures Valid()
      ensures !queueCreated || old(queue) == [] ==>
        event == None && queue == old(queue) && eventTimes[..] == old(eventTimes[..])
      ensures queueCreated && old(queue) != [] ==>
        && queue == old(queue)[1..]
        && var g := old(queue)[0];
           (if Accepts(now, old(eventTimes[g]))
            then event == Some(g) && eventTimes[..] == old(eventTimes[..])[g := now]
            else event == None && eventTimes[..] == old(eventTimes[..]))
    {
      if !queueCreated || queue == [] {
        return None;
      }
      var g := queue[0];
      queue := queue[1..];
      if SubU32(now, eventTimes[g]) > BUTTON_DEBOUNCE_MS {
        eventTimes[g] := now;
        return Some(g);
      }
      return None;
    }

    /** controls_wait_event: the same receive and debounce as
        controls_get_event, against a third table of its own. The wait for an
        event is not modelled: the queue is taken as it stands when the wait
        ends. */
    method WaitEvent(now: int) returns (event: Option<int>)
      requires Valid() && IsU32(now)
      modifies this`queue, waitTimes
      ensures Valid()
      ensures !queueCreated || old(queue) == [] ==>
        event == None && queue == old(queue) && waitTimes[..] == old(waitTimes[..])
      ensures queueCreated && old(queue) != [] ==>
        && queue == old(queue)[1..]
        && var g := old(queue)[0];
           (if Accepts(now, old(waitTimes[g]))
            then event == Some(g) && waitTimes[..] == old(waitTimes[..])[g := now]
            else event == None && waitTimes[..] == old(waitTimes[..]))
    {
      if !queueCreated || queue == [] {
        return None;
      }
      var g := queue[0];
      queue := queue[1..];
      if SubU32(now, waitTimes[g]) > BUTTON_DEBOUNCE_MS {
        waitTimes[g] := now;
        return Some(g);
      }
      return None;
    }
  }
}
