/** The resumable writer of examples/tcp/tcp-large-transfer.cc: a send callback writes from a periodic
    buffer into a socket that may take part of a write, refuse it, or run out of space. */
module StreamWriter {
  import opened Common

  const TOTAL_TX_BYTES: nat := 2000000
  const WRITE_SIZE: nat := 1040

  /** Character number `k` of the endless stream. */
  function StreamAt(k: nat): nat {
    97 + k % 26
  }

  /** The first `n` characters of the stream. */
  function Stream(n: nat): seq<nat> {
    seq(n, k requires 0 <= k < n => StreamAt(k))
  }

  /** One write: the space the socket reports before it, what is offered, what the write returns, and the
      space it leaves. */
  datatype Answer = Answer(space: nat, offered: nat, amount: int, left: nat)

  /** A sending socket under an adversary.  `Send` takes all, some or none of the bytes, or refuses
      by -1, and the free space may change at every call.  While space remains it may take nothing any
      finite number of times in a row: `patience` more times, and whatever it likes after taking
      something. */
  class Socket {
    var txAvailable: nat
    var patience: nat
    var closeCalls: nat
    ghost var accepted: seq<nat>
    ghost var answers: seq<Answer>

    constructor (space: nat, patience: nat)
      ensures txAvailable == space && this.patience == patience && accepted == [] && answers == [] && closeCalls == 0
    {
      txAvailable, this.patience, closeCalls, accepted, answers := space, patience, 0, [], [];
    }

    method Send(data: array<nat>, offset: nat, size: nat) returns (amount: int)
      requires offset + size <= data.Length && 0 < size <= txAvailable
      modifies this`txAvailable, this`patience, this`accepted, this`answers
      ensures amount == -1 || 0 <= amount <= size
      ensures answers == old(answers) + [Answer(old(txAvailable), size, amount, txAvailable)]
      ensures accepted == old(accepted) + if amount == -1 then [] else data[offset..offset + amount]
      ensures amount == 0 && txAvailable > 0 ==> patience < old(patience)
    {
      ghost var space := txAvailable;
      amount := *;
      txAvailable := *;
      if amount < 0 || amount > size {
        amount := -1;
      } else if amount > 0 {
        patience := *;
      } else if patience > 0 {
        patience := patience - 1;
      } else {
        txAvailable := 0;
      }
      answers := answers + [Answer(space, size, amount, txAvailable)];
      accepted := accepted + if amount == -1 then [] else data[offset..offset + amount];
    }

    method Close()
      modifies this`closeCalls
      ensures closeCalls == old(closeCalls) + 1
    {
      closeCalls := closeCalls + 1;
    }
  }

  // ---------------------------------------------------------------------------------------------
  // The loop of the callback, round by round

  datatype Progress = Writing(sent: nat) | Returned(sent: nat)

  /** `size` bytes stay inside the buffer, the transfer and the space. */
  predicate FitsWrite(sent: nat, space: nat, size: nat) {
    sent % WRITE_SIZE + size <= WRITE_SIZE && sent + size <= TOTAL_TX_BYTES && size <= space
  }

  /** How much the next write offers: as much as fits. */
  function ToWrite(sent: nat, space: nat): (size: nat)
    requires sent < TOTAL_TX_BYTES
    ensures size > 0 <==> space > 0
    ensures FitsWrite(sent, space, size)
    ensures forall more: nat :: FitsWrite(sent, space, more) ==> more <= size
  {
    var toWrite := WRITE_SIZE - sent % WRITE_SIZE;
    var toWrite' := if toWrite < TOTAL_TX_BYTES - sent then toWrite else TOTAL_TX_BYTES - sent;
    if toWrite' < space then toWrite' else space
  }

  function Round(p: Progress, a: Answer): Progress {
    if p.Returned? then p
    else if p.sent >= TOTAL_TX_BYTES || a.space == 0 || a.amount < 0 then Returned(p.sent)
    else Writing(p.sent + if a.amount <= ToWrite(p.sent, a.space) then a.amount else ToWrite(p.sent, a.space))
  }

  function After(sent: nat, answers: seq<Answer>): Progress {
    if answers == [] then Writing(sent)
    else Round(After(sent, answers[..|answers| - 1]), answers[|answers| - 1])
  }

  lemma AfterNext(sent: nat, answers: seq<Answer>, a: Answer)
    ensures After(sent, answers + [a]) == Round(After(sent, answers), a)
  {
    DropLast(answers, a);
  }

  /** The space the writes leave. */
  function SpaceAfter(space0: nat, answers: seq<Answer>): nat {
    if answers == [] then space0 else answers[|answers| - 1].left
  }

  /** Every write was made while bytes were left and space was reported, found the space that the one
      before it had left, and offered as much as fits. */
  predicate FullWrites(sent0: nat, space0: nat, answers: seq<Answer>) {
    answers == []
    || var before, last := answers[..|answers| - 1], answers[|answers| - 1];
       && FullWrites(sent0, space0, before)
       && After(sent0, before).Writing? && After(sent0, before).sent < TOTAL_TX_BYTES
       && last.space == SpaceAfter(space0, before) && last.space > 0
       && last.offered == ToWrite(After(sent0, before).sent, last.space)
       && last.amount <= last.offered
  }

  /** Where the loop is after some writes. */
  predicate InLoop(sent0: nat, space0: nat, answers: seq<Answer>, sent: nat, space: nat) {
    && FullWrites(sent0, space0, answers)
    && After(sent0, answers) == Writing(sent) && SpaceAfter(space0, answers) == space
  }

  lemma AfterWrite(sent0: nat, space0: nat, answers: seq<Answer>, sent: nat, a: Answer)
    requires InLoop(sent0, space0, answers, sent, a.space) && sent < TOTAL_TX_BYTES && a.space > 0
    requires a.offered == ToWrite(sent, a.space) && a.amount <= a.offered
    ensures a.amount >= 0 ==> InLoop(sent0, space0, answers + [a], sent + a.amount, a.left)
    ensures a.amount < 0 ==> Completes(sent0, space0, answers + [a], sent, a.left)
  {
    AfterNext(sent0, answers, a);
    DropLast(answers, a);
  }

  /** A call that finds `space0` free bytes after `sent0` sent ones makes these writes, and has `sent` bytes
      sent and `space` bytes free at its end: everything is sent, no space is left, or the last write was
      refused. */
  predicate Completes(sent0: nat, space0: nat, answers: seq<Answer>, sent: nat, space: nat) {
    && FullWrites(sent0, space0, answers)
    && After(sent0, answers).sent == sent && SpaceAfter(space0, answers) == space
    && (sent == TOTAL_TX_BYTES || space == 0 || (answers != [] && answers[|answers| - 1].amount < 0))
  }

  /** With bytes left and space reported a call makes a write, and without either it makes none. */
  lemma CallWrites(sent0: nat, space0: nat, answers: seq<Answer>, sent: nat, space: nat)
    requires Completes(sent0, space0, answers, sent, space) && sent0 <= TOTAL_TX_BYTES
    ensures answers != [] <==> sent0 < TOTAL_TX_BYTES && space0 > 0
    ensures answers != [] ==> answers[0].space == space0 && answers[0].offered == ToWrite(sent0, space0)
  {
    if answers != [] {
      FirstWrite(sent0, space0, answers);
    }
  }

  lemma {:induction false} FirstWrite(sent0: nat, space0: nat, answers: seq<Answer>)
    requires FullWrites(sent0, space0, answers) && answers != []
    ensures sent0 < TOTAL_TX_BYTES && space0 > 0
    ensures answers[0].space == space0 && answers[0].offered == ToWrite(sent0, space0)
  {
    if |answers| == 1 {
      assert answers[..0] == [];
    } else {
      FirstWrite(sent0, space0, answers[..|answers| - 1]);
    }
  }

  /** The stream is the alphabet over and over. */
  lemma StreamIsAlphabet(k: nat)
    ensures k < 26 ==> StreamAt(k) == "abcdefghijklmnopqrstuvwxyz"[k] as int
    ensures StreamAt(k + 26) == StreamAt(k)
  {
  }

  function Prefix(answers: nat -> Answer, n: nat): seq<Answer> {
    seq(n, i requires 0 <= i < n => answers(i))
  }

  /** The progress after `n` rounds against a socket that answers for ever. */
  function Rounds(sent: nat, answers: nat -> Answer, n: nat): Progress {
    After(sent, Prefix(answers, n))
  }

  lemma RoundsNext(sent: nat, answers: nat -> Answer, n: nat)
    ensures Rounds(sent, answers, n + 1) == Round(Rounds(sent, answers, n), answers(n))
  {
    AfterNext(sent, Prefix(answers, n), answers(n));
    assert Prefix(answers, n + 1) == Prefix(answers, n) + [answers(n)];
  }

  /** The socket reports space and takes nothing. */
  predicate Stalls(a: Answer) {
    a.space > 0 && a.amount == 0
  }

  lemma {:induction false} RoundsGrow(sent: nat, answers: nat -> Answer, m: nat, n: nat)
    requires m <= n
    ensures Rounds(sent, answers, m).sent <= Rounds(sent, answers, n).sent
    ensures Rounds(sent, answers, n).Writing? ==> Rounds(sent, answers, m).Writing?
  {
    if m == n {
    } else {
      RoundsGrow(sent, answers, m, n - 1);
      RoundsNext(sent, answers, n - 1);
    }
  }

  lemma {:induction false} StalledRounds(sent: nat, answers: nat -> Answer, m: nat, n: nat)
    requires m <= n && Rounds(sent, answers, m).Writing? && Rounds(sent, answers, m).sent < TOTAL_TX_BYTES
    requires forall k :: m <= k ==> Stalls(answers(k))
    ensures Rounds(sent, answers, n) == Rounds(sent, answers, m)
  {
    if m == n {
    } else {
      StalledRounds(sent, answers, m, n - 1);
      RoundsNext(sent, answers, n - 1);
    }
  }

  /** A loop that never returns stalls for good, because every round that does not stall sends more. */
  lemma {:induction false} StallsAtLast(sent: nat, answers: nat -> Answer, m: nat) returns (k: nat)
    requires forall n :: Rounds(sent, answers, n).Writing?
    ensures Rounds(sent, answers, k).sent < TOTAL_TX_BYTES && forall j :: k <= j ==> Stalls(answers(j))
    decreases TOTAL_TX_BYTES - Rounds(sent, answers, m).sent
  {
    forall j: nat
      ensures answers(j).space > 0 && answers(j).amount >= 0 && Rounds(sent, answers, j).sent < TOTAL_TX_BYTES
    {
      RoundsNext(sent, answers, j);
      assert Rounds(sent, answers, j + 1).Writing?;
    }
    if j :| m <= j && answers(j).amount > 0 {
      RoundsNext(sent, answers, j);
      RoundsGrow(sent, answers, m, j);
      k := StallsAtLast(sent, answers, j + 1);
    } else {
      k := m;
    }
  }

  /** The callback never returns if and only if the socket, while something is left to send, from some
      round on reports space and takes nothing for ever. */
  lemma NeverReturnsIff(sent: nat, answers: nat -> Answer)
    ensures (forall n :: Rounds(sent, answers, n).Writing?)
       <==> exists m :: Rounds(sent, answers, m).Writing? && Rounds(sent, answers, m).sent < TOTAL_TX_BYTES
              && forall k :: m <= k ==> Stalls(answers(k))
  {
    if forall n :: Rounds(sent, answers, n).Writing? {
      var m := StallsAtLast(sent, answers, 0);
      assert Rounds(sent, answers, m).Writing?;
    }
    if m :| Rounds(sent, answers, m).Writing? && Rounds(sent, answers, m).sent < TOTAL_TX_BYTES
          && forall k :: m <= k ==> Stalls(answers(k)) {
      forall n ensures Rounds(sent, answers, n).Writing? {
        if n <= m {
          RoundsGrow(sent, answers, n, m);
        } else {
          StalledRounds(sent, answers, m, n);
        }
      }
    }
  }

  // ---------------------------------------------------------------------------------------------
  // The stream

  /** The buffer holds whole periods, so any window of it continues the stream. */
  lemma WindowContinuesStream(sent: nat, offset: nat, amount: nat, data: seq<nat>)
    requires |data| == WRITE_SIZE && forall i :: 0 <= i < WRITE_SIZE ==> data[i] == StreamAt(i)
    requires offset == sent % WRITE_SIZE && offset + amount <= WRITE_SIZE
    ensures Stream(sent) + data[offset..offset + amount] == Stream(sent + amount)
  {
    forall k | sent <= k < sent + amount ensures data[offset + (k - sent)] == StreamAt(k) {
      PeriodFits(sent, k - sent);
    }
  }

  lemma PeriodFits(sent: nat, i: nat)
    ensures (sent % WRITE_SIZE + i) % 26 == (sent + i) % 26
  {
    var q := sent / WRITE_SIZE;
    assert sent == WRITE_SIZE * q + sent % WRITE_SIZE;
    WholePeriods(sent % WRITE_SIZE + i, sent + i, 40 * q);
  }

  lemma WholePeriods(a: nat, b: nat, k: nat)
    requires b == a + 26 * k
    ensures a % 26 == b % 26
  {
  }

  class Sender {
    const data: array<nat>
    const socket: Socket
    var currentTxBytes: nat

    /** main: fills the buffer. */
    constructor (socket: Socket)
      requires socket.accepted == [] && socket.closeCalls == 0
      ensures Valid() && fresh(data) && this.socket == socket && currentTxBytes == 0
    {
      this.socket := socket;
      data := new nat[WRITE_SIZE];
      currentTxBytes := 0;
      new;
      for i := 0 to WRITE_SIZE
        invariant forall k :: 0 <= k < i ==> data[k] == StreamAt(k)
        invariant socket.accepted == [] && socket.closeCalls == 0 && currentTxBytes == 0
      {
        data[i] := (97 + i % 26) % 128;
      }
    }

    /** Between calls: what the socket accepted is a prefix of the stream, and Close was called exactly
        when that prefix is complete. */
    ghost predicate Valid()
      reads this, data, socket
    {
      && data.Length == WRITE_SIZE
      && (forall i :: 0 <= i < WRITE_SIZE ==> data[i] == StreamAt(i))
      && currentTxBytes <= TOTAL_TX_BYTES
      && socket.accepted == Stream(currentTxBytes)
      && (socket.closeCalls > 0 <==> currentTxBytes == TOTAL_TX_BYTES)
    }

    method StartFlow()
      requires Valid()
      modifies this`currentTxBytes, socket
      ensures Valid() && currentTxBytes >= old(currentTxBytes)
      ensures old(socket.answers) <= socket.answers
      ensures Completes(old(currentTxBytes), old(socket.txAvailable), socket.answers[|old(socket.answers)|..],
                        currentTxBytes, socket.txAvailable)
    {
      WriteUntilBufferFull(socket.txAvailable);
    }

    /** One write: from the position in the buffer, as much as fits. */
    method SendNext() returns (amountSent: int, ghost answer: Answer)
      requires Valid() && currentTxBytes < TOTAL_TX_BYTES && socket.txAvailable > 0
      modifies socket`txAvailable, socket`patience, socket`accepted, socket`answers
      ensures answer == Answer(old(socket.txAvailable), ToWrite(currentTxBytes, old(socket.txAvailable)),
                               amountSent, socket.txAvailable)
      ensures amountSent <= answer.offered && socket.answers == old(socket.answers) + [answer]
      ensures socket.accepted == Stream(currentTxBytes + if amountSent < 0 then 0 else amountSent)
      ensures amountSent == 0 && socket.txAvailable > 0 ==> socket.patience < old(socket.patience)
    {
      var left := TOTAL_TX_BYTES - currentTxBytes;
      var dataOffset := currentTxBytes % WRITE_SIZE;
      var toWrite := WRITE_SIZE - dataOffset;
      toWrite := if toWrite < left then toWrite else left;
      toWrite := if toWrite < socket.txAvailable then toWrite else socket.txAvailable;
      ghost var space := socket.txAvailable;
      amountSent := socket.Send(data, dataOffset, toWrite);
      answer := Answer(space, toWrite, amountSent, socket.txAvailable);
      if amountSent >= 0 {
        WindowContinuesStream(currentTxBytes, dataOffset, amountSent, data[..]);
        assert data[..][dataOffset..dataOffset + amountSent] == data[dataOffset..dataOffset + amountSent];
      }
    }

    /** The send callback.  It returns only when everything was sent, no space is left, or the socket
        refused.  The announced space is not used. */
    method WriteUntilBufferFull(txSpace: nat)
      requires Valid()
      modifies this`currentTxBytes, socket
      ensures Valid() && currentTxBytes >= old(currentTxBytes)
      ensures socket.accepted[..old(currentTxBytes)] == old(socket.accepted)
      ensures old(socket.answers) <= socket.answers
      ensures Completes(old(currentTxBytes), old(socket.txAvailable), socket.answers[|old(socket.answers)|..],
                        currentTxBytes, socket.txAvailable)
      ensures socket.closeCalls == old(socket.closeCalls) + if currentTxBytes == TOTAL_TX_BYTES then 1 else 0
    {
      ghost var answered: seq<Answer> := [];
      while currentTxBytes < TOTAL_TX_BYTES && socket.txAvailable > 0
        invariant old(currentTxBytes) <= currentTxBytes <= TOTAL_TX_BYTES
        invariant socket.accepted == Stream(currentTxBytes)
        invariant socket.closeCalls == old(socket.closeCalls)
        invariant socket.answers == old(socket.answers) + answered
        invariant InLoop(old(currentTxBytes), old(socket.txAvailable), answered, currentTxBytes, socket.txAvailable)
        decreases TOTAL_TX_BYTES - currentTxBytes, if socket.txAvailable == 0 then 0 else socket.patience + 1
      {
        var amountSent;
        ghost var answer;
        amountSent, answer := SendNext();
        AfterWrite(old(currentTxBytes), old(socket.txAvailable), answered, currentTxBytes, answer);
        answered := answered + [answer];
        if amountSent < 0 {
          StreamPrefix(old(currentTxBytes), currentTxBytes);
          assert socket.answers[|old(socket.answers)|..] == answered;
          return;
        }
        currentTxBytes := currentTxBytes + amountSent;
      }
      StreamPrefix(old(currentTxBytes), currentTxBytes);
      assert socket.answers[|old(socket.answers)|..] == answered;
      if currentTxBytes >= TOTAL_TX_BYTES {
        socket.Close();
      }
    }

    /** The start and then any sequence of callbacks, each with any amount of space announced and a socket
        that will take nothing any number of times.  `calls` records every call, the start first. */
    method Transfer(announced: seq<(nat, nat)>) returns (ghost calls: seq<Call>)
      requires Valid()
      modifies this`currentTxBytes, socket
      ensures Valid() && currentTxBytes >= old(currentTxBytes)
      ensures |calls| == |announced| + 1 && calls[0].space0 == old(socket.txAvailable)
      ensures forall i :: 0 <= i < |announced| ==> calls[i + 1].space0 == announced[i].0
      ensures Recorded(old(currentTxBytes), old(socket.answers), calls,
                       currentTxBytes, socket.answers, socket.txAvailable)
    {
      StartFlow();
      ghost var answers := socket.answers[|old(socket.answers)|..];
      calls := [Call(old(currentTxBytes), old(socket.txAvailable), answers, currentTxBytes, socket.txAvailable)];
      assert socket.answers == old(socket.answers) + answers;
      FirstCall(old(socket.answers), calls[0]);
      for i := 0 to |announced|
        invariant Valid() && currentTxBytes >= old(currentTxBytes)
        invariant |calls| == i + 1 && calls[0].space0 == old(socket.txAvailable)
        invariant forall k :: 0 <= k < i ==> calls[k + 1].space0 == announced[k].0
        invariant Recorded(old(currentTxBytes), old(socket.answers), calls,
                           currentTxBytes, socket.answers, socket.txAvailable)
      {
        ghost var sent, answered, space := currentTxBytes, socket.answers, socket.txAvailable;
        ghost var call := Callback(announced[i].0, announced[i].1);
        NextCall(old(currentTxBytes), old(socket.answers), calls, sent, answered, space, call);
        calls := calls + [call];
      }
    }

    /** One callback, after the free space of the socket has become `announced`. */
    method Callback(announced: nat, patience: nat) returns (ghost call: Call)
      requires Valid()
      modifies this`currentTxBytes, socket
      ensures Valid() && currentTxBytes >= old(currentTxBytes)
      ensures call == Call(old(currentTxBytes), announced, call.answers, currentTxBytes, socket.txAvailable)
      ensures Completes(call.sent0, call.space0, call.answers, call.sent, call.space)
      ensures socket.answers == old(socket.answers) + call.answers
    {
      socket.txAvailable, socket.patience := announced, patience;
      WriteUntilBufferFull(announced);
      ghost var answers := socket.answers[|old(socket.answers)|..];
      call := Call(old(currentTxBytes), announced, answers, currentTxBytes, socket.txAvailable);
    }
  }

  /** One call of the writer, with the bytes sent and the space before and after it. */
  datatype Call = Call(sent0: nat, space0: nat, answers: seq<Answer>, sent: nat, space: nat)

  /** The calls follow one another, and each completes. */
  predicate CallsFrom(sent0: nat, calls: seq<Call>, sent: nat) {
    if calls == [] then sent == sent0
    else
      var last := calls[|calls| - 1];
      && CallsFrom(sent0, calls[..|calls| - 1], last.sent0)
      && Completes(last.sent0, last.space0, last.answers, last.sent, last.space)
      && sent == last.sent
  }

  function AllAnswers(calls: seq<Call>): seq<Answer> {
    if calls == [] then [] else AllAnswers(calls[..|calls| - 1]) + calls[|calls| - 1].answers
  }

  /** The calls account for all writes and for where sender and socket are now. */
  predicate Recorded(sent0: nat, answers0: seq<Answer>, calls: seq<Call>, sent: nat, answers: seq<Answer>, space: nat) {
    && calls != [] && CallsFrom(sent0, calls, sent)
    && answers == answers0 + AllAnswers(calls) && space == calls[|calls| - 1].space
  }

  lemma FirstCall(answers0: seq<Answer>, call: Call)
    requires Completes(call.sent0, call.space0, call.answers, call.sent, call.space)
    ensures Recorded(call.sent0, answers0, [call], call.sent, answers0 + call.answers, call.space)
  {
    assert [call][..0] == [] && AllAnswers([call]) == call.answers;
  }

  lemma NextCall(sent0: nat, answers0: seq<Answer>, calls: seq<Call>,
                 sent: nat, answers: seq<Answer>, space: nat, call: Call)
    requires Recorded(sent0, answers0, calls, sent, answers, space) && call.sent0 == sent
    requires Completes(call.sent0, call.space0, call.answers, call.sent, call.space)
    ensures Recorded(sent0, answers0, calls + [call], call.sent, answers + call.answers, call.space)
  {
    DropLast(calls, call);
    ConcatAssociative(answers0, AllAnswers(calls), call.answers);
  }

  lemma StreamPrefix(n: nat, m: nat)
    requires n <= m
    ensures Stream(m)[..n] == Stream(n)
  {
  }
}
