/** A reference Reface DX: an idealised device that keeps one byte per
    parameter address, answers the identity request with the Reface DX
    identity, stores each parameter change and acknowledges it with a copy of
    it, and answers each dump request with a parameter change carrying the
    stored value. It is the partner against which the librarian's transfers are
    checked end to end: upload then download gives the patch back, and "Set
    Name" then "Get Name" gives the name back.

    Because this device sends exactly one reply per request it understands, the
    stream it produces for the messages the librarian sends is the same whether
    it is computed in advance or interleaved with the sending, so it can be the
    incoming stream of a MidiPort. */
module ReferenceDevice {
  import opened Midi
  import opened ParameterTable
  import opened VoiceName
  import opened Transfer
  import opened Librarian

  /** The device's parameter memory; an address never written reads as 0. */
  type Memory = map<Address, byte>

  function Stored(mem: Memory, a: Address): byte
  {
    if a in mem then mem[a] else 0
  }

  /** The requests the device understands. */
  datatype Command = Identify | Write(a: Address, v: byte) | Read(a: Address) | Unknown

  /** Yamaha's SysEx header for the Reface DX: manufacturer 0x43, then the
      command byte (0x10 parameter change, 0x30 dump request), then 7F 1C 05. */
  predicate YamahaHeader(data: seq<byte>, command: byte)
  {
    |data| >= 5 && data[0] == 0x43 && data[1] == command && data[2] == 0x7F && data[3] == 0x1C && data[4] == 0x05
  }

  /** Recognises a message by its SysEx header. */
  function Parse(m: Message): Command
  {
    match m
    case Other(_, _) => Unknown
    case SysEx(data) =>
      if data == IdentityRequest.data then Identify
      else if |data| == 9 && YamahaHeader(data, 0x10) then Write(Address(data[5], data[6], data[7]), data[8])
      else if |data| == 8 && YamahaHeader(data, 0x30) then Read(Address(data[5], data[6], data[7]))
      else Unknown
  }

  /** The device reads each of the librarian's messages as what it was built
      to be, and reads a write or a read only from the message built for it. */
  lemma ParseInverts(a: Address, v: byte, m: Message)
    ensures Parse(IdentityRequest) == Identify
    ensures Parse(ParameterChange(a, v)) == Write(a, v)
    ensures Parse(DumpRequest(a)) == Read(a)
    ensures Parse(m) == Write(a, v) ==> m == ParameterChange(a, v)
    ensures Parse(m) == Read(a) ==> m == DumpRequest(a)
  {
    if Parse(m) == Write(a, v) {
      assert m.data == ParameterChange(a, v).data;
    }
    if Parse(m) == Read(a) {
      assert m.data == DumpRequest(a).data;
    }
  }

  /** The identity reply of a Reface DX (Yamaha, family 0x41 0x53). */
  const IdentityReply: Message :=
    SysEx([0x7E, 0x7F, 0x06, 0x02, 0x43, 0x00, 0x41, 0x53, 0x06, 0x03, 0x00, 0x00, 0x7F])

  /** The device's identity reply is, byte for byte, the one the handshake expects. */
  lemma IdentityReplyExpected()
    ensures Bytes(IdentityReply) == ExpectedIdentity
  {
  }

  /** The device's memory after a run of messages, and its replies to them in order. */
  datatype Served = Served(memory: Memory, replies: seq<Message>)

  /** The device's reaction to one message. */
  function Respond(mem: Memory, m: Message): Served
  {
    match Parse(m)
    case Identify => Served(mem, [IdentityReply])
    case Write(a, v) => Served(mem[a := v], [ParameterChange(a, v)])
    case Read(a) => Served(mem, [ParameterChange(a, Stored(mem, a))])
    case Unknown => Served(mem, [])
  }

  /** The device's reaction to the given messages in order. */
  function Serve(mem: Memory, msgs: seq<Message>): Served
    decreases |msgs|
  {
    if msgs == [] then Served(mem, [])
    else
      var first := Respond(mem, msgs[0]);
      var rest := Serve(first.memory, msgs[1..]);
      Served(rest.memory, first.replies + rest.replies)
  }

  /** Serving one more message adds its reaction. */
  lemma {:induction false} ServeSnoc(mem: Memory, msgs: seq<Message>, m: Message)
    ensures var before := Serve(mem, msgs);
            var last := Respond(before.memory, m);
            Serve(mem, msgs + [m]) == Served(last.memory, before.replies + last.replies)
    decreases |msgs|
  {
    if msgs == [] {
      assert [] + [m] == [m] && [m][1..] == [];
    } else {
      var first := Respond(mem, msgs[0]);
      ServeSnoc(first.memory, msgs[1..], m);
      assert (msgs + [m])[1..] == msgs[1..] + [m];
    }
  }

  /** The stored values of the table's addresses, in table order. */
  function Recall(mem: Memory, table: seq<Address>): (values: seq<byte>)
    ensures |values| == |table|
    ensures forall i :: 0 <= i < |table| ==> values[i] == Stored(mem, table[i])
  {
    if table == [] then [] else Recall(mem, table[..|table| - 1]) + [Stored(mem, table[|table| - 1])]
  }

  /** No address occurs twice in the table. */
  predicate Distinct(table: seq<Address>)
  {
    forall i, j :: 0 <= i < j < |table| ==> table[i] != table[j]
  }

  /** The device's reaction to the first n + 1 parameter changes of a table:
      its reaction to the first n, then the store and echo of change n. */
  lemma ChangeStep(mem: Memory, table: seq<Address>, values: seq<byte>, n: nat)
    requires n < |table| && |values| == |table|
    ensures var before := Serve(mem, ParameterChanges(table[..n], values[..n]));
            Serve(mem, ParameterChanges(table[..n + 1], values[..n + 1]))
            == Served(before.memory[table[n] := values[n]], before.replies + [ParameterChange(table[n], values[n])])
  {
    var change := ParameterChange(table[n], values[n]);
    ParameterChangesSnoc(table, values, n);
    ParseInverts(table[n], values[n], change);
    ServeSnoc(mem, ParameterChanges(table[..n], values[..n]), change);
  }

  /** Storing the next value of a table of distinct addresses keeps the values
      already stored and every address outside the table. */
  lemma StoreNext(mem: Memory, before: Memory, table: seq<Address>, values: seq<byte>, k: nat)
    requires k < |table| && |values| == |table| && Distinct(table)
    requires forall i :: 0 <= i < k ==> Stored(before, table[i]) == values[i]
    requires forall a :: a !in table[..k] ==> Stored(before, a) == Stored(mem, a)
    ensures var after := before[table[k] := values[k]];
            && (forall i :: 0 <= i < k + 1 ==> Stored(after, table[i]) == values[i])
            && (forall a :: a !in table[..k + 1] ==> Stored(after, a) == Stored(mem, a))
  {
    var after := before[table[k] := values[k]];
    forall i | 0 <= i < k + 1
      ensures Stored(after, table[i]) == values[i]
    {
      if i < k {
        assert table[i] != table[k];
      }
    }
    assert table[..k + 1] == table[..k] + [table[k]];
  }

  /** The first n parameter changes of a table of distinct addresses are
      acknowledged change by change, store each value at its address, and
      leave every other address alone. */
  lemma {:induction false} ChangesStored(mem: Memory, table: seq<Address>, values: seq<byte>, n: nat)
    requires n <= |table| && |values| == |table| && Distinct(table)
    ensures var served := Serve(mem, ParameterChanges(table[..n], values[..n]));
            && served.replies == ParameterChanges(table[..n], values[..n])
            && (forall i :: 0 <= i < n ==> Stored(served.memory, table[i]) == values[i])
            && (forall a :: a !in table[..n] ==> Stored(served.memory, a) == Stored(mem, a))
  {
    if n > 0 {
      var k := n - 1;
      ChangesStored(mem, table, values, k);
      ChangeStep(mem, table, values, k);
      ParameterChangesSnoc(table, values, k);
      var before := Serve(mem, ParameterChanges(table[..k], values[..k]));
      StoreNext(mem, before.memory, table, values, k);
    } else {
      assert table[..0] == [] && values[..0] == [];
    }
  }

  /** A run of parameter changes over distinct addresses is acknowledged change
      by change, leaves the values in the device's memory, and leaves every
      other address alone. */
  lemma ServeChanges(mem: Memory, table: seq<Address>, values: seq<byte>)
    requires |values| == |table| && Distinct(table)
    ensures Serve(mem, ParameterChanges(table, values)).replies == ParameterChanges(table, values)
    ensures Recall(Serve(mem, ParameterChanges(table, values)).memory, table) == values
    ensures forall a :: a !in table ==> Stored(Serve(mem, ParameterChanges(table, values)).memory, a) == Stored(mem, a)
  {
    assert table[..|table|] == table && values[..|values|] == values;
    ChangesStored(mem, table, values, |table|);
  }

  /** A run of dump requests leaves the memory alone and is answered, request
      by request, with parameter changes carrying the stored values. */
  lemma {:induction false} ServeRequests(mem: Memory, table: seq<Address>)
    ensures Serve(mem, DumpRequests(table)) == Served(mem, ParameterChanges(table, Recall(mem, table)))
    decreases |table|
  {
    if table != [] {
      var n := |table| - 1;
      var values := Recall(mem, table);
      var request := DumpRequest(table[n]);
      assert table[..n + 1] == table && values[..n + 1] == values;
      DumpRequestsSnoc(table, n);
      ParameterChangesSnoc(table, values, n);
      assert values[..n] == Recall(mem, table[..n]);
      ServeRequests(mem, table[..n]);
      ParseInverts(table[n], 0, request);
      ServeSnoc(mem, DumpRequests(table[..n]), request);
    }
  }

  /** A stream that holds, from c on, parameter changes carries their values. */
  lemma ChangesCarry(inc: seq<Message>, c: nat, table: seq<Address>, values: seq<byte>)
    requires c <= |inc| && |values| == |table|
    requires inc[c..] == ParameterChanges(table, values)
    ensures RepliesFrom(inc, c) == values
  {
    forall i | c <= i < |inc|
      ensures inc[i].SysEx?
    {
      assert inc[i] == inc[c..][i - c];
    }
    AllReplies(inc, c);
    forall i | 0 <= i < |values|
      ensures RepliesFrom(inc, c)[i] == values[i]
    {
      assert inc[c + i] == inc[c..][i];
    }
  }

  /** A stream that opens with the device's identity reply passes the handshake,
      which consumes just that reply. */
  lemma IdentityAccepted(inc: seq<Message>)
    requires |inc| >= 1 && inc[0] == IdentityReply
    ensures IdentityVerdict(inc, 0) == Verified && PastReply(inc, 0) == 1
  {
    assert FirstSysex(inc, 0) == 0;
    IdentityReplyExpected();
  }

  /** The device answers the identity request first, so the handshake verifies
      it and consumes exactly its reply. */
  lemma HandshakeAccepts(mem: Memory, rest: seq<Message>)
    ensures var inc := Serve(mem, [IdentityRequest] + rest).replies;
            && |inc| >= 1 && inc[0] == IdentityReply
            && IdentityVerdict(inc, 0) == Verified && PastReply(inc, 0) == 1
            && inc[1..] == Serve(mem, rest).replies
            && Serve(mem, [IdentityRequest] + rest).memory == Serve(mem, rest).memory
  {
    ParseInverts(Address(0, 0, 0), 0, IdentityRequest);
    assert ([IdentityRequest] + rest)[1..] == rest;
    var inc := Serve(mem, [IdentityRequest] + rest).replies;
    assert inc == [IdentityReply] + Serve(mem, rest).replies;
    IdentityAccepted(inc);
  }

  /** Uploading values over a table of distinct addresses to the device: the
      handshake verifies, every change is acknowledged, so the upload completes,
      and the device then holds the values at the table's addresses. */
  lemma {:induction false} UploadTable(mem: Memory, table: seq<Address>, values: seq<byte>)
    requires |values| == |table| && Distinct(table)
    ensures var served := Serve(mem, [IdentityRequest] + ParameterChanges(table, values));
            var inc, pos := served.replies, PastReply(served.replies, 0);
            && IdentityVerdict(inc, 0) == Verified
            && UploadSends(|table|, |values|, |inc| - pos) == |table|
            && UploadOutcome(|table|, |values|, |inc| - pos) == Completed
            && Recall(served.memory, table) == values
  {
    HandshakeAccepts(mem, ParameterChanges(table, values));
    ServeChanges(mem, table, values);
  }

  /** Downloading a table from the device: the handshake verifies, the memory is
      left alone, and the replies carry the stored values in table order. */
  lemma {:induction false} DownloadTable(mem: Memory, table: seq<Address>)
    ensures var served := Serve(mem, [IdentityRequest] + DumpRequests(table));
            var values := RepliesFrom(served.replies, PastReply(served.replies, 0));
            && served.memory == mem
            && IdentityVerdict(served.replies, 0) == Verified
            && values == Recall(mem, table)
  {
    HandshakeAccepts(mem, DumpRequests(table));
    ServeRequests(mem, table);
    var inc := Serve(mem, [IdentityRequest] + DumpRequests(table)).replies;
    ChangesCarry(inc, 1, table, Recall(mem, table));
  }

  /** The table's addresses are distinct, and so are the name's. */
  lemma TablesDistinct()
    ensures Distinct(Parameters) && Distinct(NameBlock)
  {
    forall i, j | 0 <= i < j < |Parameters|
      ensures Parameters[i] != Parameters[j]
    {
      AddressesDistinct(i, j);
    }
    forall i, j | 0 <= i < j < |NameBlock|
      ensures NameBlock[i] != NameBlock[j]
    {
      assert NameBlock[i].low == i && NameBlock[j].low == j;
    }
  }

  /** Uploading values over a table of distinct addresses and then downloading
      the table gives the values back, whichever way the slot index advances. */
  lemma RoundTrip(mem: Memory, table: seq<Address>, values: seq<byte>)
    requires |values| == |table| && Distinct(table)
    ensures var up := Serve(mem, [IdentityRequest] + ParameterChanges(table, values));
            var down := Serve(up.memory, [IdentityRequest] + DumpRequests(table));
            var replies := RepliesFrom(down.replies, PastReply(down.replies, 0));
            && IdentityVerdict(up.replies, 0) == Verified
            && UploadOutcome(|table|, |values|, |up.replies| - PastReply(up.replies, 0)) == Completed
            && IdentityVerdict(down.replies, 0) == Verified
            && SlotsByReceipt(StepOutcomes(replies, |table|), |table|) == values
            && SlotsByStep(StepOutcomes(replies, |table|), |table|) == values
  {
    UploadTable(mem, table, values);
    var up := Serve(mem, [IdentityRequest] + ParameterChanges(table, values));
    DownloadTable(up.memory, table);
    var down := Serve(up.memory, [IdentityRequest] + DumpRequests(table));
    assert RepliesFrom(down.replies, PastReply(down.replies, 0)) == values;
    DrainedPortFillsAlike(values, |table|);
    assert Fill(values, |table|) == values;
  }

  /** Uploading a patch and then downloading it ("Upload to DX", then "Save As")
      gives the same patch back. */
  lemma UploadThenDownload(mem: Memory, voice: seq<byte>)
    requires |voice| == SyxSize
    ensures var up := Serve(mem, [IdentityRequest] + ParameterChanges(Parameters, voice));
            var down := Serve(up.memory, [IdentityRequest] + DumpRequests(Parameters));
            var replies := RepliesFrom(down.replies, PastReply(down.replies, 0));
            && IdentityVerdict(up.replies, 0) == Verified
            && UploadOutcome(SyxSize, |voice|, |up.replies| - PastReply(up.replies, 0)) == Completed
            && IdentityVerdict(down.replies, 0) == Verified
            && SlotsByReceipt(StepOutcomes(replies, SyxSize), SyxSize) == voice
  {
    TablesDistinct();
    RoundTrip(mem, Parameters, voice);
  }

  /** "Set Name" then "Get Name" on the device shows the name that was set,
      padded with spaces to ten characters. */
  lemma SetNameThenGetName(mem: Memory, name: string)
    requires Latin1(name) && |name| <= 10
    requires '/' !in name && '\\' !in name
    ensures var up := Serve(mem, [IdentityRequest] + ParameterChanges(NameBlock, EncodeName(name)));
            var down := Serve(up.memory, [IdentityRequest] + DumpRequests(NameBlock));
            var replies := RepliesFrom(down.replies, PastReply(down.replies, 0));
            && IdentityVerdict(up.replies, 0) == Verified
            && UploadOutcome(|NameBlock|, 10, |up.replies| - PastReply(up.replies, 0)) == Completed
            && IdentityVerdict(down.replies, 0) == Verified
            && DisplayName(SlotsByStep(StepOutcomes(replies, |NameBlock|), |NameBlock|))
               == name + Padding[..10 - |name|]
  {
    TableSize();
    TablesDistinct();
    RoundTrip(mem, NameBlock, EncodeName(name));
    SetNameThenDisplay(name);
  }
}
