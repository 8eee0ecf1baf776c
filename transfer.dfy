/** The Reface DX SysEx transfer primitives: the messages the librarian sends,
    the identity handshake, and one step of the lockstep download.

    The port is a MidiPort: a finite stream of incoming messages and a log of
    sent ones. A blocking receive on a stream with nothing left stands for the
    device never answering, which in the librarian blocks forever; the model
    stops there with the outcome Hung and sends nothing more. Iterating over the
    port while waiting for a dump reply ends when the stream is used up, which
    is the case the librarian reports as a missing parameter. */
module Transfer {
  import opened Midi
  import opened ParameterTable

  /** The Device Inquiry of the MIDI 1.0 Detailed Specification (Universal
      Non-Real-Time Identity Request): F0 7E 01 06 01 F7. */
  const IdentityRequest: Message := SysEx([0x7E, 0x01, 0x06, 0x01])

  /** The identity reply of a Reface DX, framing included. */
  const ExpectedIdentity: seq<byte> :=
    [0xF0, 0x7E, 0x7F, 0x06, 0x02, 0x43, 0x00, 0x41, 0x53, 0x06, 0x03, 0x00, 0x00, 0x7F, 0xF7]

  /** Yamaha dump request for one parameter: 43 30 7F 1C 05 high mid low. */
  function DumpRequest(p: Address): Message
  {
    SysEx([0x43, 0x30, 0x7F, 0x1C, 0x05, p.high, p.mid, p.low])
  }

  /** Yamaha parameter change for one parameter: 43 10 7F 1C 05 high mid low value. */
  function ParameterChange(p: Address, v: byte): Message
  {
    SysEx([0x43, 0x10, 0x7F, 0x1C, 0x05, p.high, p.mid, p.low, v])
  }

  /** On the wire a dump request is F0 43 30 7F 1C 05 high mid low F7. */
  lemma DumpRequestWire(p: Address)
    ensures Bytes(DumpRequest(p)) == [0xF0, 0x43, 0x30, 0x7F, 0x1C, 0x05, p.high, p.mid, p.low, 0xF7]
  {
  }

  /** On the wire a parameter change is F0 43 10 7F 1C 05 high mid low value F7;
      its value sits where a dump reply carries the parameter value. */
  lemma ParameterChangeWire(p: Address, v: byte)
    ensures Bytes(ParameterChange(p, v)) == [0xF0, 0x43, 0x10, 0x7F, 0x1C, 0x05, p.high, p.mid, p.low, v, 0xF7]
    ensures ParameterValue(ParameterChange(p, v)) == v
  {
  }

  /** One dump request per table entry, in table order. */
  function DumpRequests(table: seq<Address>): (r: seq<Message>)
    ensures |r| == |table|
    ensures forall i :: 0 <= i < |table| ==> r[i] == DumpRequest(table[i])
  {
    if table == [] then [] else DumpRequests(table[..|table| - 1]) + [DumpRequest(table[|table| - 1])]
  }

  /** Requesting one more entry appends its dump request. */
  lemma DumpRequestsSnoc(table: seq<Address>, n: nat)
    requires n < |table|
    ensures DumpRequests(table[..n + 1]) == DumpRequests(table[..n]) + [DumpRequest(table[n])]
  {
    assert table[..n + 1][..n] == table[..n];
  }

  /** One parameter change per table entry, carrying the value at the same index. */
  function ParameterChanges(table: seq<Address>, values: seq<byte>): (r: seq<Message>)
    requires |values| == |table|
    ensures |r| == |table|
    ensures forall i :: 0 <= i < |table| ==> r[i] == ParameterChange(table[i], values[i])
  {
    var n := |table|;
    if n == 0 then [] else ParameterChanges(table[..n - 1], values[..n - 1]) + [ParameterChange(table[n - 1], values[n - 1])]
  }

  /** Sending one more entry appends its parameter change. */
  lemma ParameterChangesSnoc(table: seq<Address>, values: seq<byte>, n: nat)
    requires n < |table| && n < |values|
    ensures ParameterChanges(table[..n + 1], values[..n + 1])
            == ParameterChanges(table[..n], values[..n]) + [ParameterChange(table[n], values[n])]
  {
    assert table[..n + 1][..n] == table[..n];
    assert values[..n + 1][..n] == values[..n];
  }

  function Min(a: nat, b: nat): nat
  {
    if a < b then a else b
  }

  function Zeros(n: nat): (z: seq<byte>)
    ensures |z| == n && forall i :: 0 <= i < n ==> z[i] == 0
  {
    seq(n, i => 0)
  }

  /** A zero-initialised buffer of the given size after the given values were
      written into its first slots, one after another. */
  function Fill(values: seq<byte>, size: nat): (buffer: seq<byte>)
    ensures |buffer| == size
    ensures forall i :: 0 <= i < size ==> buffer[i] == if i < |values| then values[i] else 0
  {
    if |values| >= size then values[..size] else values + Zeros(size - |values|)
  }

  /** Writing the next value into the next slot extends the filled prefix. */
  lemma FillSnoc(values: seq<byte>, n: nat, size: nat)
    requires n < |values| && n < size
    ensures Fill(values[..n + 1], size) == Fill(values[..n], size)[n := values[n]]
  {
  }

  /** How an operation ended. Hung: the device stopped answering a blocking
      receive, where the librarian waits forever. IndexError: the patch had too
      few bytes for the table, where the librarian raises IndexError. */
  datatype Outcome = Completed | NoDevice | NotRecognised | Hung | IndexError(index: nat)

  datatype Verdict = Verified | NotRecognisedDevice | NoReply

  /** The handshake's judgement of the stream from pos on: the first message
      whose first byte is 0xF0 must equal the expected identity byte for byte. */
  function IdentityVerdict(inc: seq<Message>, pos: nat): (v: Verdict)
    requires pos <= |inc|
    ensures v == NoReply <==> forall j :: pos <= j < |inc| ==> !inc[j].SysEx?
    ensures v == Verified ==> exists k :: pos <= k < |inc| && Bytes(inc[k]) == ExpectedIdentity
  {
    var k := FirstSysex(inc, pos);
    if k == |inc| then NoReply
    else if Bytes(inc[k]) == ExpectedIdentity then Verified
    else NotRecognisedDevice
  }

  /** FirstSysex is the one position its contract describes. */
  lemma {:induction false} FirstSysexUnique(inc: seq<Message>, pos: nat, k: nat)
    requires pos <= k <= |inc|
    requires forall j :: pos <= j < k ==> !inc[j].SysEx?
    requires k < |inc| ==> inc[k].SysEx?
    ensures FirstSysex(inc, pos) == k
    decreases k - pos
  {
    if pos < k {
      FirstSysexUnique(inc, pos + 1, k);
    }
  }

  /** The handshake accepts exactly when the first message framed by 0xF0 is the
      expected identity, and gets no reply exactly when no such message comes. */
  lemma VerifiedIffIdentityFirst(inc: seq<Message>, pos: nat)
    requires pos <= |inc|
    ensures IdentityVerdict(inc, pos) == Verified <==>
            exists k :: pos <= k < |inc| && Bytes(inc[k]) == ExpectedIdentity
                        && forall j :: pos <= j < k ==> Bytes(inc[j])[0] != 0xF0
    ensures IdentityVerdict(inc, pos) == NoReply <==>
            forall j :: pos <= j < |inc| ==> Bytes(inc[j])[0] != 0xF0
  {
    var f := FirstSysex(inc, pos);
    if exists k :: pos <= k < |inc| && Bytes(inc[k]) == ExpectedIdentity
                   && forall j :: pos <= j < k ==> Bytes(inc[j])[0] != 0xF0 {
      var k :| pos <= k < |inc| && Bytes(inc[k]) == ExpectedIdentity
               && forall j :: pos <= j < k ==> Bytes(inc[j])[0] != 0xF0;
      assert Bytes(inc[k])[0] == 0xF0;
      FirstSysexUnique(inc, pos, k);
    }
    if f < |inc| {
      assert Bytes(inc[f])[0] == 0xF0;
    }
  }

  /** Messages that are not SysEx ahead of the reply do not change the verdict. */
  lemma NoiseIgnored(noise: seq<Message>, inc: seq<Message>)
    requires forall i :: 0 <= i < |noise| ==> !noise[i].SysEx?
    ensures IdentityVerdict(noise + inc, 0) == IdentityVerdict(inc, 0)
  {
    var all := noise + inc;
    var k := FirstSysex(inc, 0);
    forall j | 0 <= j < |noise| + k
      ensures !all[j].SysEx?
    {
      if j >= |noise| {
        assert all[j] == inc[j - |noise|];
      }
    }
    if k < |inc| {
      assert all[|noise| + k] == inc[k];
    }
    FirstSysexUnique(all, 0, |noise| + k);
  }

  /** Reads messages until a SysEx one arrives; None when the stream is used up
      first. A message is SysEx exactly when its first raw byte is 0xF0 (see
      Bytes), so this is both the handshake's wait for a message starting with
      0xF0 and the download's wait for a message of type sysex. */
  method AwaitSysex(port: MidiPort) returns (msg: Option<Message>)
    requires port.Valid()
    modifies port
    ensures port.Valid() && port.sent == old(port.sent)
    ensures port.cursor == PastReply(port.incoming, old(port.cursor))
    ensures var k := FirstSysex(port.incoming, old(port.cursor));
            msg == if k < |port.incoming| then Some(port.incoming[k]) else None
  {
    ghost var inc, start := port.incoming, port.cursor;
    msg := port.Receive();
    while msg.Some? && Bytes(msg.value)[0] != 0xF0
      invariant port.Valid() && port.sent == old(port.sent) && port.incoming == inc
      invariant start <= port.cursor
      invariant msg.Some? ==> start < port.cursor && msg.value == inc[port.cursor - 1]
                              && FirstSysex(inc, start) == FirstSysex(inc, port.cursor - 1)
      invariant msg.None? ==> port.cursor == |inc| && FirstSysex(inc, start) == |inc|
      decreases |inc| - port.cursor, if msg.Some? then 1 else 0
    {
      msg := port.Receive();
    }
  }

  /** Sends the identity request, waits for the first message whose first byte
      is 0xF0, and compares that one with the expected identity. */
  method Handshake(port: MidiPort) returns (verdict: Verdict)
    requires port.Valid()
    modifies port
    ensures port.Valid()
    ensures port.sent == old(port.sent) + [IdentityRequest]
    ensures port.cursor == PastReply(port.incoming, old(port.cursor))
    ensures verdict == IdentityVerdict(port.incoming, old(port.cursor))
  {
    port.Send(IdentityRequest);
    var msg := AwaitSysex(port);
    if msg.None? {
      verdict := NoReply;
    } else if Bytes(msg.value) == ExpectedIdentity {
      verdict := Verified;
    } else {
      verdict := NotRecognisedDevice;
    }
  }

  /** One wait for a SysEx reply, seen through the values still to come: it
      obtains the next value if there is one and then the rest are still to
      come; otherwise it uses the stream up and obtains nothing. */
  lemma ReplyStep(inc: seq<Message>, c: nat, values: seq<byte>, idx: nat)
    requires c <= |inc| && idx <= |values|
    requires RepliesFrom(inc, c) == values[idx..]
    ensures var k := FirstSysex(inc, c);
            && (k < |inc| ==> idx < |values| && values[idx] == ParameterValue(inc[k])
                              && RepliesFrom(inc, PastReply(inc, c)) == values[idx + 1..])
            && (k == |inc| ==> idx == |values| && RepliesFrom(inc, PastReply(inc, c)) == values[idx..])
  {
    FirstReply(inc, c);
    var k := FirstSysex(inc, c);
    if k < |inc| {
      assert values[idx..][0] == values[idx] && values[idx..][1..] == values[idx + 1..];
    }
  }

  /** Where a lockstep download over table stands after step steps, of which
      got obtained a value: one dump request sent per step, one wait per step,
      and the values still to come are those of values from got on. */
  ghost predicate DownloadProgress(port: MidiPort, sent0: seq<Message>, table: seq<Address>, pos: nat,
                                   values: seq<byte>, step: nat, got: nat)
    reads port
  {
    && port.Valid() && pos <= |port.incoming| && step <= |table|
    && port.sent == sent0 + DumpRequests(table[..step])
    && port.cursor == AfterReplies(port.incoming, pos, step)
    && got == Min(step, |values|)
    && RepliesFrom(port.incoming, port.cursor) == values[got..]
  }

  /** One download step: a dump request for the next entry, then a wait for a
      SysEx reply; the value it obtains is the next of the values still to
      come, and it obtains none only once they have all been obtained. */
  method RequestOne(port: MidiPort, table: seq<Address>, step: nat, ghost sent0: seq<Message>, ghost pos: nat,
                    ghost values: seq<byte>, ghost got: nat) returns (value: Option<byte>)
    requires step < |table| && DownloadProgress(port, sent0, table, pos, values, step, got)
    modifies port
    ensures value.Some? ==> got < |values| && value.value == values[got]
                            && DownloadProgress(port, sent0, table, pos, values, step + 1, got + 1)
    ensures value.None? ==> got == |values| && DownloadProgress(port, sent0, table, pos, values, step + 1, got)
  {
    DumpRequestsSnoc(table, step);
    port.Send(DumpRequest(table[step]));
    ReplyStep(port.incoming, port.cursor, values, got);
    var msg := AwaitSysex(port);
    value := if msg.Some? then Some(ParameterValue(msg.value)) else None;
  }

  /** One download step that stores what it obtains: the value goes into the
      given slot of the buffer, which must be the next unfilled one whenever a
      value can still come. */
  method DumpStep(port: MidiPort, buffer: array<byte>, slot: nat, table: seq<Address>, step: nat,
                  ghost sent0: seq<Message>, ghost pos: nat, ghost values: seq<byte>, ghost got: nat)
      returns (obtained: bool)
    requires step < |table| && DownloadProgress(port, sent0, table, pos, values, step, got)
    requires buffer.Length == |table| && buffer[..] == Fill(values[..got], |table|)
    requires slot < |table| && (got < |values| ==> slot == got)
    modifies port, buffer
    ensures obtained ==> got < |values|
    ensures !obtained ==> got == |values|
    ensures var got' := if obtained then got + 1 else got;
            DownloadProgress(port, sent0, table, pos, values, step + 1, got')
            && buffer[..] == Fill(values[..got'], |table|)
  {
    var value := RequestOne(port, table, step, sent0, pos, values, got);
    obtained := value.Some?;
    if obtained {
      FillSnoc(values, got, |table|);
      buffer[slot] := value.value;
    }
  }
}
