/**
 The keyboard ring. The interrupt handler may run between any two statements of the main loop,
 any number of times; each statement is one step.
 */
module Keyboard {
  import opened ScanCodes

  const BUFFER_SIZE: nat := 256

  /** The slot of the i-th accepted code. */
  function Slot(i: nat): nat { (i + 1) % 256 }

  lemma NextSlot(n: nat)
    ensures (n % 256 + 1) % 256 == Slot(n) == (n + 1) % 256
  {
  }

  /** The last 256 accepted codes are where they were put. */
  ghost predicate RingHolds(buffer: seq<nat>, accepted: seq<nat>) {
    && |buffer| == BUFFER_SIZE
    && (forall i: nat :: i < |accepted| < i + 257 ==> buffer[Slot(i)] == accepted[i])
    && (accepted == [] ==> buffer[0] == 0)
  }

  lemma RingPut(buffer: seq<nat>, accepted: seq<nat>, code: nat)
    requires RingHolds(buffer, accepted)
    ensures RingHolds(buffer[Slot(|accepted|) := code], accepted + [code])
  {
  }

  /** Slot bufferTail shows the last accepted code, or 0. */
  lemma TailShowsLast(buffer: seq<nat>, accepted: seq<nat>)
    requires RingHolds(buffer, accepted)
    ensures buffer[|accepted| % 256] == Last(accepted)
  {
  }

  // ---------------------------------------------------------------- the history of a ring

  /** Codes delivered, accepted and consumed so far; entries no longer counted as used; whether
      keyboard_buffer_out is between its decrement and its read; the reads whose slot was reused
      before they happened; and whether a code met a full ring. */
  datatype Log = Log(arrived: Codes, accepted: Codes, consumed: seq<nat>, released: nat, reading: bool,
    overrun: set<nat>, lost: bool)
  {
    function Used(): int { |accepted| - released }
  }

  const EMPTY_LOG := Log([], [], [], 0, false, {}, false)

  ghost predicate Consistent(log: Log) {
    && 0 <= log.Used() <= BUFFER_SIZE
    && log.released == |log.consumed| + (if log.reading then 1 else 0)
    && ConsumedMatches(log.consumed, log.accepted, log.overrun)
    && (forall i :: i in log.overrun ==> i < log.released)
    && (log.reading ==> (|log.consumed| in log.overrun <==> log.Used() == BUFFER_SIZE))
    && (!log.lost ==> log.accepted == Accepted(log.arrived))
  }

  /** What the consumer has seen: the accepted codes in order, but for reads that were overrun. */
  ghost predicate ConsumedMatches(consumed: seq<nat>, accepted: seq<nat>, overrun: set<nat>) {
    && |consumed| <= |accepted|
    && (forall i: nat :: i < |consumed| && i !in overrun ==> consumed[i] == accepted[i])
    && (forall i: nat :: i < |consumed| && i in overrun ==> i + 256 < |accepted| && consumed[i] == accepted[i + 256])
  }

  /** The codes consumed are a prefix of the codes accepted exactly when every overrun slot
      was overwritten with the code it already held; in particular when there is none. */
  lemma PrefixExactly(log: Log)
    requires Consistent(log)
    ensures log.consumed <= log.accepted <==>
      forall i :: i in log.overrun && i < |log.consumed| ==>
        i + 256 < |log.accepted| && log.accepted[i + 256] == log.accepted[i]
    ensures log.overrun == {} ==> log.consumed <= log.accepted
  {
    forall i | i in log.overrun && i < |log.consumed|
      ensures i + 256 < |log.accepted| && log.consumed[i] == log.accepted[i + 256]
    {
    }
  }

  /** `n` times the scan code of key 2. */
  function Twos(n: nat): (r: Codes)
    ensures |r| == n && forall i :: 0 <= i < n ==> r[i] == 3
  {
    seq(n, i => 3)
  }

  /** As long as there is room, each of them is accepted. */
  lemma {:induction false} TwosAccepted(log: Log, n: nat)
    requires 0 <= log.Used() && log.Used() + n <= BUFFER_SIZE
    ensures DeliverAll(log, Twos(n)) ==
      Log(log.arrived + Twos(n), log.accepted + Twos(n), log.consumed, log.released, log.reading,
          if log.reading && n > 0 && log.Used() + n == BUFFER_SIZE then log.overrun + {|log.consumed|} else log.overrun,
          log.lost)
    decreases n
  {
    if n > 0 {
      assert Twos(n)[1..] == Twos(n - 1) && Twos(n) == [3] + Twos(n - 1);
      assert Deliver(log, 3) == DeliverIf(log, 3, true);
      TwosAccepted(Deliver(log, 3), n - 1);
      assert log.arrived + Twos(n) == log.arrived + [3] + Twos(n - 1);
      assert log.accepted + Twos(n) == log.accepted + [3] + Twos(n - 1);
    } else {
      assert log.arrived + [] == log.arrived && log.accepted + [] == log.accepted;
    }
  }

  /** Key 1 was pressed. */
  const KEY_ONE: Log := Log([2], [2], [], 0, false, {}, false)

  lemma KeyOneDelivered()
    ensures DeliverAll(EMPTY_LOG, [2]) == KEY_ONE && Consistent(KEY_ONE)
  {
    assert Deliver(EMPTY_LOG, 2) == DeliverIf(EMPTY_LOG, 2, true);
    DeliverAllKeeps(EMPTY_LOG, [2]);
  }

  /** After the decrement of keyboard_buffer_out, 256 codes of key 2 arrive. */
  lemma RingOverrun()
    ensures DeliverAll(Release(KEY_ONE), Twos(256)) == Log([2] + Twos(256), [2] + Twos(256), [], 1, true, {0}, false)
    ensures Consistent(DeliverAll(Release(KEY_ONE), Twos(256)))
  {
    KeyOneDelivered();
    ReleaseConsistent(KEY_ONE);
    TwosAccepted(Release(KEY_ONE), 256);
    DeliverAllKeeps(Release(KEY_ONE), Twos(256));
  }

  /** A concrete overrun: after key 1 and 256 times key 2, the read gives key 2 first, so what
      is consumed is no prefix of what was accepted, although nothing was lost. */
  lemma OverrunReadsWrongCode(buffer: seq<nat>)
    requires RingHolds(buffer, [2] + Twos(256))
    ensures var log := Read(DeliverAll(Release(DeliverAll(EMPTY_LOG, [2])), Twos(256)), buffer[1]);
      && Consistent(log) && !log.lost && log.accepted == log.arrived == [2] + Twos(256)
      && log.consumed == [3] && !(log.consumed <= log.accepted)
  {
    KeyOneDelivered();
    RingOverrun();
    ReadConsistent(DeliverAll(Release(KEY_ONE), Twos(256)), buffer);
    assert [3][0] != ([2] + Twos(256))[0];
  }

  /** One keyboard interrupt. */
  function Deliver(log: Log, code: nat): Log
    requires code < 0x100
  {
    DeliverIf(log, code, Accepts(log.accepted, code))
  }

  /** A code arrives; `wanted` codes are put into the ring unless it is full. */
  function DeliverIf(log: Log, code: nat, wanted: bool): Log
    requires code < 0x100
  {
    var arrived := log.arrived + [code];
    if log.Used() >= BUFFER_SIZE then log.(arrived := arrived, lost := true)
    else if !wanted then log.(arrived := arrived)
    else log.(arrived := arrived, accepted := log.accepted + [code],
              overrun := if log.reading && log.Used() + 1 == BUFFER_SIZE then log.overrun + {|log.consumed|}
                         else log.overrun)
  }

  /** Interrupts one after the other. */
  function DeliverAll(log: Log, codes: Codes): Log
    decreases |codes|
  {
    if codes == [] then log else DeliverAll(Deliver(log, codes[0]), codes[1..])
  }

  lemma DeliverConsistent(log: Log, code: nat)
    requires Consistent(log) && code < 0x100
    ensures var log' := Deliver(log, code);
      && Consistent(log')
      && log'.consumed == log.consumed && log'.released == log.released && log'.reading == log.reading
      && log.accepted <= log'.accepted && log'.arrived == log.arrived + [code]
      && log.Used() <= log'.Used() <= log.Used() + 1
      && log.overrun <= log'.overrun && (log.lost ==> log'.lost)
  {
    AcceptedSnoc(log.arrived, code);
    DeliverIfConsistent(log, code, Accepts(log.accepted, code));
  }

  lemma DeliverIfConsistent(log: Log, code: nat, wanted: bool)
    requires Consistent(log) && code < 0x100
    requires !log.lost ==> Accepted(log.arrived + [code]) == if wanted then log.accepted + [code] else log.accepted
    ensures var log' := DeliverIf(log, code, wanted);
      && Consistent(log')
      && log'.consumed == log.consumed && log'.released == log.released && log'.reading == log.reading
      && log.accepted <= log'.accepted && log'.arrived == log.arrived + [code]
      && log.Used() <= log'.Used() <= log.Used() + 1
      && log.overrun <= log'.overrun && (log.lost ==> log'.lost)
  {
  }

  /** What interrupts leave alone and what they may add. */
  lemma {:induction false} DeliverAllKeeps(log: Log, codes: Codes)
    requires Consistent(log)
    ensures var log' := DeliverAll(log, codes);
      && Consistent(log')
      && log'.consumed == log.consumed && log'.released == log.released && log'.reading == log.reading
      && log.accepted <= log'.accepted && log'.arrived == log.arrived + codes
      && log.Used() <= log'.Used() <= log.Used() + |codes|
      && log.overrun <= log'.overrun && (log.lost ==> log'.lost)
    decreases |codes|
  {
    if codes != [] {
      DeliverConsistent(log, codes[0]);
      DeliverAllKeeps(Deliver(log, codes[0]), codes[1..]);
    }
  }

  /** From one state of the ring and the keyboard controller to a later one: codes only move from
      incoming to arrived, in order, the measure that bounds the consumer's work never grows, and
      a ring with room for all that is coming stays one. */
  ghost predicate Later(log: Log, codes: Codes, log': Log, codes': Codes) {
    && (Roomy(log, codes) ==> Roomy(log', codes'))
    && log'.arrived + codes' == log.arrived + codes
    && 2 * |codes'| + log'.Used() <= 2 * |codes| + log.Used()
    && log.overrun <= log'.overrun && (log.lost ==> log'.lost)
  }

  /** Nothing was overrun or lost so far, and the codes still to come cannot fill the ring. */
  ghost predicate Roomy(log: Log, codes: Codes) {
    log.overrun == {} && !log.lost && log.Used() + |codes| < BUFFER_SIZE
  }

  /** Codes that cannot fill the ring are neither lost nor overrun one another. */
  lemma {:induction false} RoomyDelivery(log: Log, codes: Codes)
    requires Consistent(log) && log.Used() + |codes| < BUFFER_SIZE
    ensures DeliverAll(log, codes).overrun == log.overrun && DeliverAll(log, codes).lost == log.lost
    decreases |codes|
  {
    if codes != [] {
      DeliverConsistent(log, codes[0]);
      RoomyDelivery(Deliver(log, codes[0]), codes[1..]);
    }
  }

  /** What the consumer sees of interrupts. */
  ghost predicate OnlyDelivered(log: Log, log': Log) {
    && log'.consumed == log.consumed && log'.released == log.released && log'.reading == log.reading
    && log.Used() <= log'.Used()
  }

  lemma DeliveredLater(log: Log, codes: Codes, n: nat)
    requires Consistent(log) && n <= |codes|
    ensures var log' := DeliverAll(log, codes[..n]);
      Consistent(log') && Later(log, codes, log', codes[n..]) && OnlyDelivered(log, log')
  {
    DeliverAllKeeps(log, codes[..n]);
    if Roomy(log, codes) { RoomyDelivery(log, codes[..n]); }
    assert codes[..n] + codes[n..] == codes;
    assert log.arrived + codes == (log.arrived + codes[..n]) + codes[n..];
  }

  /** keyboard.c:121: the entry is no longer counted. */
  function Release(log: Log): Log { log.(released := log.released + 1, reading := true) }

  /** keyboard.c:123: the slot is read. */
  function Read(log: Log, code: nat): Log { log.(consumed := log.consumed + [code], reading := false) }

  lemma ReleaseConsistent(log: Log)
    requires Consistent(log) && !log.reading && log.Used() > 0
    ensures Consistent(Release(log))
  {
  }

  /** The slot under bufferHead holds the code that is due, unless the ring filled up meanwhile;
      then it holds the code accepted 256 places later. */
  lemma ReadConsistent(log: Log, buffer: seq<nat>)
    requires Consistent(log) && log.reading && RingHolds(buffer, log.accepted)
    ensures var code := buffer[log.released % 256];
      && Consistent(Read(log, code))
      && |log.consumed| < |log.accepted|
      && (log.Used() < BUFFER_SIZE ==> code == log.accepted[|log.consumed|])
      && (log.Used() == BUFFER_SIZE ==>
            |log.consumed| + 256 < |log.accepted| && code == log.accepted[|log.consumed| + 256])
  {
    var k := |log.consumed|;
    assert Slot(k) == log.released % 256;
    if log.Used() == BUFFER_SIZE { assert Slot(k + 256) == log.released % 256; }
  }

  class Keyboard {
    var buffer: array<nat>
    var bufferHead: nat
    var bufferTail: nat
    var bufferUsed: nat
    var status: nat
    var screen: string
    var incoming: Codes // what the keyboard controller will still deliver
    ghost var log: Log

    ghost predicate Valid()
      reads this, buffer
    {
      && Consistent(log)
      && RingHolds(buffer[..], log.accepted)
      && bufferTail == |log.accepted| % 256
      && bufferUsed == log.Used()
    }

    /** Some of the incoming codes were delivered, and nothing else happened. */
    twostate predicate Interrupted()
      reads this
    {
      && buffer == old(buffer)
      && |incoming| <= |old(incoming)|
      && var n := |old(incoming)| - |incoming|;
         incoming == old(incoming)[n..] && log == DeliverAll(old(log), old(incoming)[..n])
    }

    constructor (incoming: Codes)
      ensures Valid() && this.incoming == incoming && log == EMPTY_LOG
      ensures status == 0 && screen == "" && bufferHead == 0 && fresh(buffer)
    {
      buffer := new nat[256](_ => 0);
      bufferHead, bufferTail, bufferUsed := 0, 0, 0;
      status, screen := 0, "";
      this.incoming := incoming;
      log := EMPTY_LOG;
    }

    /** keyboard_buffer_in, run by the interrupt handler on the next code. */
    method BufferIn()
      requires Valid() && incoming != []
      modifies this`incoming, this`bufferTail, this`bufferUsed, this`log, buffer
      ensures Valid() && incoming == old(incoming)[1..]
      ensures log == Deliver(old(log), old(incoming[0]))
      ensures var accepted, code := old(log.accepted), old(incoming[0]);
        log.accepted ==
          if old(bufferUsed) >= 256 || FlatKey(code) == '\0' then accepted
          else if code in {0x2a, 0x36} && accepted != [] && accepted[|accepted| - 1] == code then accepted
          else accepted + [code]
    {
      var code := incoming[0];
      incoming := incoming[1..];
      DeliverConsistent(log, code);
      TailShowsLast(buffer[..], log.accepted);
      if bufferUsed >= BUFFER_SIZE || FlatKey(code) == '\0' {
        log := Deliver(log, code);
        return;
      }
      if code == 0x2a || code == 0x36 {
        if code == buffer[bufferTail] {
          log := Deliver(log, code);
          return;
        }
      }
      Put(code);
    }

    /** keyboard.c:110-112: the code goes to the next slot. */
    method Put(code: nat)
      requires Valid() && code < 0x100 && bufferUsed < BUFFER_SIZE
      requires Consistent(DeliverIf(log, code, true))
      modifies this`bufferTail, this`bufferUsed, this`log, buffer
      ensures Valid() && log == DeliverIf(old(log), code, true)
    {
      RingPut(buffer[..], log.accepted, code);
      NextSlot(|log.accepted|);
      ghost var before := buffer[..];
      bufferTail := (bufferTail + 1) % 256;
      buffer[bufferTail] := code;
      assert buffer[..] == before[Slot(|log.accepted|) := code];
      bufferUsed := bufferUsed + 1;
      log := DeliverIf(log, code, true);
    }

    /** Any number of interrupts, taken between two statements. */
    method Interrupts()
      requires Valid()
      modifies this`incoming, this`bufferTail, this`bufferUsed, this`log, buffer
      ensures Valid() && Interrupted()
      ensures Later(old(log), old(incoming), log, incoming) && OnlyDelivered(old(log), log)
    {
      var n: nat :| n <= |incoming|;
      DeliveredLater(log, incoming, n);
      InterruptsN(n);
    }

    method InterruptsN(n: nat)
      requires Valid() && n <= |incoming|
      modifies this`incoming, this`bufferTail, this`bufferUsed, this`log, buffer
      ensures Valid() && incoming == old(incoming)[n..] && log == DeliverAll(old(log), old(incoming)[..n])
      decreases n
    {
      if n > 0 {
        assert incoming[..n][1..] == incoming[1..][..n - 1];
        BufferIn();
        InterruptsN(n - 1);
      }
    }

    // -------------------------------------------------------------- consumer

    /** keyboard_buffer_out, with interrupts before every statement. */
    method BufferOut() returns (code: nat)
      requires Ready()
      modifies this`incoming, this`bufferHead, this`bufferTail, this`bufferUsed, this`log, buffer
      ensures Ready() && buffer == old(buffer) && Later(old(log), old(incoming), log, incoming)
      ensures log.consumed == old(log.consumed) + [code] || (log.consumed == old(log.consumed) && code == 0)
      ensures old(bufferUsed) > 0 ==> log.consumed == old(log.consumed) + [code]
      ensures old(bufferUsed) > 0 ==> 2 * |incoming| + bufferUsed < 2 * |old(incoming)| + old(bufferUsed)
    {
      Interrupts();
      if bufferUsed == 0 {
        return 0;
      }
      Interrupts();
      code := TakeEntry();
    }

    /** keyboard.c:120-123, once the ring is known not to be empty. */
    method TakeEntry() returns (code: nat)
      requires Ready() && bufferUsed > 0
      modifies this`incoming, this`bufferHead, this`bufferTail, this`bufferUsed, this`log, buffer
      ensures Ready() && buffer == old(buffer) && Later(old(log), old(incoming), log, incoming)
      ensures log.consumed == old(log.consumed) + [code]
      ensures 2 * |incoming| + bufferUsed < 2 * |old(incoming)| + old(bufferUsed)
    {
      ReleaseNext();
      code := ReadReleased();
    }

    /** keyboard.c:120-121 */
    method ReleaseNext()
      requires Ready() && bufferUsed > 0
      modifies this`incoming, this`bufferHead, this`bufferTail, this`bufferUsed, this`log, buffer
      ensures Valid() && log.reading && bufferHead == log.released % 256
      ensures Later(old(log), old(incoming), log, incoming) && log.consumed == old(log.consumed)
      ensures 2 * |incoming| + bufferUsed < 2 * |old(incoming)| + old(bufferUsed)
    {
      AdvanceHead();
      Interrupts();
      ReleaseEntry();
    }

    /** keyboard.c:123, after the interrupts that may come between it and line 121. */
    method ReadReleased() returns (code: nat)
      requires Valid() && log.reading && bufferHead == log.released % 256
      modifies this`incoming, this`bufferTail, this`bufferUsed, this`log, buffer
      ensures Ready() && Later(old(log), old(incoming), log, incoming)
      ensures log.consumed == old(log.consumed) + [code]
    {
      Interrupts();
      code := ReadSlot();
    }

    /** Between two calls of keyboard_buffer_out. */
    ghost predicate Ready()
      reads this, buffer
    {
      Valid() && !log.reading && bufferHead == |log.consumed| % 256
    }

    /** keyboard.c:120 */
    method AdvanceHead()
      requires Ready()
      modifies this`bufferHead
      ensures bufferHead == (|log.consumed| + 1) % 256
    {
      NextSlot(|log.consumed|);
      bufferHead := (bufferHead + 1) % 256;
    }

    /** keyboard.c:121 */
    method ReleaseEntry()
      requires Valid() && !log.reading && bufferUsed > 0
      modifies this`bufferUsed, this`log
      ensures Valid() && log == Release(old(log))
    {
      ReleaseConsistent(log);
      bufferUsed := bufferUsed - 1;
      log := Release(log);
    }

    /** keyboard.c:123 */
    method ReadSlot() returns (code: nat)
      requires Valid() && log.reading && bufferHead == log.released % 256
      modifies this`log
      ensures Valid() && log == Read(old(log), code)
    {
      ReadConsistent(log, buffer[..]);
      code := buffer[bufferHead];
      log := Read(log, code);
    }

    // -------------------------------------------------------------- keyboard_buffer_clear

    /** Status and screen are those of the machine after the consumed codes. */
    ghost predicate Translated()
      reads this
    {
      FeedAll(log.consumed) == Machine(status, screen)
    }

    /** keyboard.c:78-96, for one code; `status & 2` is the status without its lowest bit. */
    method Translate(code: nat)
      requires status < 4
      modifies this`status, this`screen
      ensures Machine(status, screen) == Feed(old(Machine(status, screen)), code)
    {
      if code == 0x2a || code == 0x36 {
        status := status / 2 * 2 + 1;
      } else if code == 0x3a {
        status := (status + 2) % 4;
      } else if code == 0xaa || code == 0xb6 {
        status := status / 2 * 2;
      } else if code < 0x80 {
        if Keymap(status, code) != '\0' {
          screen := screen + [Keymap(status, code)];
        }
      }
    }

    /** One turn of the loop of keyboard_buffer_clear. */
    method TypeNext()
      requires Ready() && Translated() && bufferUsed > 0
      modifies this, buffer
      ensures Ready() && Translated() && buffer == old(buffer)
      ensures Later(old(log), old(incoming), log, incoming)
      ensures 2 * |incoming| + bufferUsed < 2 * |old(incoming)| + old(bufferUsed)
    {
      var code := BufferOut();
      FeedSnoc(old(log.consumed), code);
      Translate(code);
    }

    /** keyboard_buffer_clear: however interrupts fall, the text and the status are those of the
        machine run over the consumed codes; when the ring never filled up, over all that arrived. */
    method BufferClear()
      requires Ready() && Translated()
      modifies this, buffer
      ensures Ready() && Translated() && bufferUsed == 0
      ensures buffer == old(buffer) && Later(old(log), old(incoming), log, incoming)
      ensures log.overrun == {} ==> log.consumed == log.accepted
      ensures log.overrun == {} && !log.lost ==> Machine(status, screen) == FeedAll(log.arrived)
      ensures old(Roomy(log, incoming)) ==> Machine(status, screen) == FeedAll(log.arrived)
      ensures Transcript(log.consumed, status, screen)
      ensures log.overrun == {} && !log.lost ==> Transcript(log.arrived, status, screen)
    {
      Interrupts();
      while bufferUsed > 0
        invariant Ready() && Translated() && buffer == old(buffer)
        invariant Later(old(log), old(incoming), log, incoming)
        decreases 2 * |incoming| + bufferUsed
      {
        TypeNext();
        Interrupts();
      }
      DrainedLog(log);
      FeedAllTranscript(log.consumed);
      FeedAllTranscript(log.arrived);
    }
  }

  /** An empty ring has been read to its end. */
  lemma DrainedLog(log: Log)
    requires Consistent(log) && !log.reading && log.Used() == 0
    ensures log.overrun == {} ==> log.consumed == log.accepted
    ensures log.overrun == {} && !log.lost ==> FeedAll(log.consumed) == FeedAll(log.arrived)
  {
    FilterIsInvisible(log.arrived);
  }

  lemma FeedSnoc(codes: seq<nat>, code: nat)
    ensures FeedAll(codes + [code]) == Feed(FeedAll(codes), code)
  {
  }

  /** The main loop, which drains the ring now and then: any number of drains, with any
      interrupts in between, types what the machine types for the codes that arrived. Fewer than
      256 codes are typed in full whatever the timing. */
  method DrainRepeatedly(codes: Codes, times: nat) returns (k: Keyboard)
    requires times > 0
    ensures k.Ready() && k.Translated() && k.log.arrived + k.incoming == codes
    ensures k.log.overrun == {} && !k.log.lost ==> Machine(k.status, k.screen) == FeedAll(k.log.arrived)
    ensures |codes| < BUFFER_SIZE ==> Machine(k.status, k.screen) == FeedAll(k.log.arrived)
    ensures (k.log.overrun == {} && !k.log.lost) || |codes| < BUFFER_SIZE ==>
      Transcript(k.log.arrived, k.status, k.screen)
  {
    k := new Keyboard(codes);
    var i := 0;
    while i < times
      invariant i <= times && k.Ready() && k.Translated() && k.log.arrived + k.incoming == codes
      invariant i > 0 && k.log.overrun == {} && !k.log.lost ==> Machine(k.status, k.screen) == FeedAll(k.log.arrived)
      invariant |codes| < BUFFER_SIZE ==> Roomy(k.log, k.incoming)
      invariant fresh(k) && fresh(k.buffer)
    {
      k.BufferClear();
      i := i + 1;
    }
    FeedAllTranscript(k.log.arrived);
  }
}
