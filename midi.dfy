/** MIDI messages as the librarian sees them through its port library, and the
    port pair it opens: a finite stream of incoming messages read through a
    cursor, and a log of the messages sent. */
module Midi {

  type byte = b: int | 0 <= b < 0x100

  /** The status byte of a message that is not System Exclusive: never 0xF0. */
  type StatusByte = b: int | 0x80 <= b < 0x100 && b != 0xF0 witness 0x80

  datatype Option<T> = None | Some(value: T)

  /** A SysEx message carries the bytes between its 0xF0 and 0xF7 framing bytes;
      every other message is a status byte followed by its data bytes. */
  datatype Message =
    | SysEx(data: seq<byte>)
    | Other(status: StatusByte, rest: seq<byte>)

  /** The raw bytes of a message, framing included. */
  function Bytes(m: Message): (raw: seq<byte>)
    ensures |raw| >= 1
    ensures raw[0] == 0xF0 <==> m.SysEx?
    ensures m.SysEx? ==> |raw| == |m.data| + 2 && raw[|raw| - 1] == 0xF7
  {
    match m
    case SysEx(data) => [0xF0] + data + [0xF7]
    case Other(status, rest) => [status] + rest
  }

  /** The parameter value of a dump reply: its last data byte, which is the
      byte just before the 0xF7 terminator (ParameterValueIsPenultimate). */
  function ParameterValue(m: Message): byte
    requires m.SysEx?
  {
    if |m.data| == 0 then 0xF0 else m.data[|m.data| - 1]
  }

  /** The parameter value is the second-to-last raw byte of the reply. */
  lemma ParameterValueIsPenultimate(m: Message)
    requires m.SysEx?
    ensures var raw := Bytes(m); ParameterValue(m) == raw[|raw| - 2]
  {
    var raw := Bytes(m);
    assert raw == [0xF0] + m.data + [0xF7];
    if |m.data| > 0 {
      assert raw[|raw| - 2] == m.data[|m.data| - 1];
    }
  }

  /** The position of the first SysEx message at or after pos, or |inc| if there is none. */
  function FirstSysex(inc: seq<Message>, pos: nat): (k: nat)
    requires pos <= |inc|
    ensures pos <= k <= |inc|
    ensures forall j :: pos <= j < k ==> !inc[j].SysEx?
    ensures k < |inc| ==> inc[k].SysEx?
    decreases |inc| - pos
  {
    if pos == |inc| || inc[pos].SysEx? then pos else FirstSysex(inc, pos + 1)
  }

  /** The cursor after reading up to and including the first SysEx message at or
      after pos; the whole stream when none is left. */
  function PastReply(inc: seq<Message>, pos: nat): (c: nat)
    requires pos <= |inc|
    ensures pos <= c <= |inc|
    ensures c < |inc| ==> pos < c && inc[c - 1].SysEx?
  {
    var k := FirstSysex(inc, pos);
    if k < |inc| then k + 1 else |inc|
  }

  /** The cursor after n successive waits for a SysEx reply. */
  function AfterReplies(inc: seq<Message>, pos: nat, n: nat): (c: nat)
    requires pos <= |inc|
    ensures pos <= c <= |inc|
  {
    if n == 0 then pos else PastReply(inc, AfterReplies(inc, pos, n - 1))
  }

  /** The values carried by the SysEx messages of inc from position c on, in
      arrival order. */
  function RepliesFrom(inc: seq<Message>, c: nat): (r: seq<byte>)
    requires c <= |inc|
    ensures |r| <= |inc| - c
    ensures r == [] <==> forall j :: c <= j < |inc| ==> !inc[j].SysEx?
    decreases |inc| - c
  {
    if c == |inc| then []
    else (if inc[c].SysEx? then [ParameterValue(inc[c])] else []) + RepliesFrom(inc, c + 1)
  }

  /** Waiting for one SysEx reply from c on consumes the first SysEx value still
      to come, or finds none when no SysEx message is left. */
  lemma {:induction false} FirstReply(inc: seq<Message>, c: nat)
    requires c <= |inc|
    ensures var k := FirstSysex(inc, c);
            if k < |inc| then RepliesFrom(inc, c) == [ParameterValue(inc[k])] + RepliesFrom(inc, k + 1)
            else RepliesFrom(inc, c) == []
    decreases |inc| - c
  {
    if c < |inc| && !inc[c].SysEx? {
      assert FirstSysex(inc, c) == FirstSysex(inc, c + 1);
      assert RepliesFrom(inc, c) == [] + RepliesFrom(inc, c + 1);
      FirstReply(inc, c + 1);
    }
  }

  /** When every message from c on is SysEx, each of them yields one value. */
  lemma {:induction false} AllReplies(inc: seq<Message>, c: nat)
    requires c <= |inc|
    requires forall i :: c <= i < |inc| ==> inc[i].SysEx?
    ensures |RepliesFrom(inc, c)| == |inc| - c
    ensures forall i :: c <= i < |inc| ==> RepliesFrom(inc, c)[i - c] == ParameterValue(inc[i])
    decreases |inc| - c
  {
    if c < |inc| {
      AllReplies(inc, c + 1);
      var rest := RepliesFrom(inc, c + 1);
      assert RepliesFrom(inc, c) == [ParameterValue(inc[c])] + rest;
      forall i | c < i < |inc|
        ensures RepliesFrom(inc, c)[i - c] == ParameterValue(inc[i])
      {
        assert RepliesFrom(inc, c)[i - c] == rest[i - (c + 1)];
      }
    }
  }

  /** The port pair the librarian opens on the device: what the device will send,
      how much of it has been read, and what has been sent to the device. */
  class MidiPort {
    const incoming: seq<Message>
    var cursor: nat
    var sent: seq<Message>

    ghost predicate Valid()
      reads this
    {
      cursor <= |incoming|
    }

    constructor (incoming: seq<Message>)
      ensures Valid()
      ensures this.incoming == incoming && cursor == 0 && sent == []
    {
      this.incoming := incoming;
      cursor := 0;
      sent := [];
    }

    /** Send one message to the device. */
    method Send(m: Message)
      requires Valid()
      modifies this
      ensures Valid()
      ensures sent == old(sent) + [m] && cursor == old(cursor)
    {
      sent := sent + [m];
    }

    /** Take the next incoming message; None when the device has nothing more to send. */
    method Receive() returns (m: Option<Message>)
      requires Valid()
      modifies this
      ensures Valid() && sent == old(sent)
      ensures old(cursor) < |incoming| ==> m == Some(incoming[old(cursor)]) && cursor == old(cursor) + 1
      ensures old(cursor) == |incoming| ==> m == None && cursor == old(cursor)
    {
      if cursor < |incoming| {
        m := Some(incoming[cursor]);
        cursor := cursor + 1;
      } else {
        m := None;
      }
    }
  }
}
