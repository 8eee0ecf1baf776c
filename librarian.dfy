/** The four device operations of the librarian window: "Upload to DX",
    "Save As" (download), "Get Name" and "Set Name". Each checks that a device
    is chosen, runs the identity handshake, and then walks the parameter table
    (or its name entries) in lockstep with the device. */
module Librarian {
  import opened Midi
  import opened ParameterTable
  import opened VoiceName
  import opened Transfer

  /** The dump loop of "Save As": for each table entry a dump request and a wait
      for a SysEx reply, whose value goes into the next unfilled slot of a
      zeroed buffer; a step that obtains nothing is counted as a warning. */
  method CollectByReceipt(port: MidiPort, table: seq<Address>) returns (voice: array<byte>, warnings: nat)
    requires port.Valid()
    modifies port
    ensures fresh(voice) && port.Valid()
    ensures var values := RepliesFrom(port.incoming, old(port.cursor));
            && voice[..] == Fill(values, |table|)
            && warnings == |table| - Min(|values|, |table|)
            && port.sent == old(port.sent) + DumpRequests(table)
            && port.cursor == AfterReplies(port.incoming, old(port.cursor), |table|)
  {
    ghost var pos := port.cursor;
    ghost var values := RepliesFrom(port.incoming, pos);
    voice := new byte[|table|](_ => 0);
    var idx := 0;
    warnings := 0;
    for step := 0 to |table|
      invariant DownloadProgress(port, old(port.sent), table, pos, values, step, idx)
      invariant voice[..] == Fill(values[..idx], |table|)
      invariant warnings == step - idx
    {
      var obtained := DumpStep(port, voice, idx, table, step, old(port.sent), pos, values, idx);
      if obtained {
        idx := idx + 1;
      } else {
        warnings := warnings + 1;
      }
    }
    assert values[..idx] == values[..Min(|table|, |values|)];
    assert table[..|table|] == table;
  }

  /** The dump loop of "Get Name": like CollectByReceipt, but the value of step i
      goes into slot i, and a step that obtains nothing leaves its slot zero. */
  method CollectByStep(port: MidiPort, table: seq<Address>) returns (slots: array<byte>)
    requires port.Valid()
    modifies port
    ensures fresh(slots) && port.Valid()
    ensures var values := RepliesFrom(port.incoming, old(port.cursor));
            && slots[..] == Fill(values, |table|)
            && port.sent == old(port.sent) + DumpRequests(table)
            && port.cursor == AfterReplies(port.incoming, old(port.cursor), |table|)
  {
    ghost var pos := port.cursor;
    ghost var values := RepliesFrom(port.incoming, pos);
    slots := new byte[|table|](_ => 0);
    ghost var got := 0;
    for idx := 0 to |table|
      invariant DownloadProgress(port, old(port.sent), table, pos, values, idx, got)
      invariant slots[..] == Fill(values[..got], |table|)
    {
      var obtained := DumpStep(port, slots, idx, table, idx, old(port.sent), pos, values, got);
      if obtained {
        got := got + 1;
      }
    }
    assert values[..got] == values[..Min(|table|, |values|)];
    assert table[..|table|] == table;
  }

  /** The number of parameter changes a lockstep upload sends, for a table of
      tableSize entries, valueCount bytes to send and available incoming messages. */
  function UploadSends(tableSize: nat, valueCount: nat, available: nat): (s: nat)
    ensures s <= tableSize && s <= valueCount
    ensures s == Min(Min(tableSize, valueCount), available + 1)
  {
    var n := Min(tableSize, valueCount);
    if available >= n then n else available + 1
  }

  /** How a lockstep upload ends: it hangs on the first step left without a
      reply, and otherwise fails with IndexError when the values run out. */
  function UploadOutcome(tableSize: nat, valueCount: nat, available: nat): (o: Outcome)
    ensures o == Hung <==> available < tableSize && available < valueCount
    ensures o.IndexError? <==> valueCount < tableSize && valueCount <= available
    ensures o.IndexError? ==> o.index == valueCount
    ensures o == Completed <==> tableSize <= valueCount && tableSize <= available
    ensures o == Completed || o == Hung || o.IndexError?
  {
    if available < Min(tableSize, valueCount) then Hung
    else if valueCount < tableSize then IndexError(valueCount)
    else Completed
  }

  /** For each table entry in order, sends its parameter change with the value at
      the same index, then consumes one incoming message of any kind. */
  method SendParameters(port: MidiPort, table: seq<Address>, values: seq<byte>) returns (outcome: Outcome)
    requires port.Valid()
    modifies port
    ensures port.Valid()
    ensures var available := |port.incoming| - old(port.cursor);
            var s := UploadSends(|table|, |values|, available);
            && port.sent == old(port.sent) + ParameterChanges(table[..s], values[..s])
            && port.cursor == old(port.cursor) + Min(s, available)
            && outcome == UploadOutcome(|table|, |values|, available)
  {
    ghost var available := |port.incoming| - port.cursor;
    var idx := 0;
    while idx < |table|
      invariant idx <= |table| && idx <= |values| && idx <= available
      invariant port.Valid()
      invariant port.sent == old(port.sent) + ParameterChanges(table[..idx], values[..idx])
      invariant port.cursor == old(port.cursor) + idx
    {
      if idx >= |values| {
        assert UploadSends(|table|, |values|, available) == idx;
        outcome := IndexError(idx);
        return;
      }
      ParameterChangesSnoc(table, values, idx);
      port.Send(ParameterChange(table[idx], values[idx]));
      var reply := port.Receive();
      if reply.None? {
        assert UploadSends(|table|, |values|, available) == idx + 1;
        outcome := Hung;
        return;
      }
      idx := idx + 1;
    }
    assert UploadSends(|table|, |values|, available) == |table|;
    assert table[..|table|] == table;
    outcome := Completed;
  }

  /** The patch "Upload to DX" sends: the file's bytes, or 133 zero bytes when
      the file could not be read. */
  function PatchToUpload(file: Option<seq<byte>>): (voice: seq<byte>)
    ensures file.Some? ==> voice == file.value
    ensures file.None? ==> |voice| == SyxSize && forall i :: 0 <= i < |voice| ==> voice[i] == 0
  {
    if file.Some? then file.value else Zeros(SyxSize)
  }

  /** "Upload to DX": handshake, then a lockstep upload of the whole table. */
  method UploadSelected(file: Option<seq<byte>>, port: MidiPort) returns (outcome: Outcome)
    requires port.Valid()
    modifies port
    ensures port.Valid()
    ensures var inc, c0 := port.incoming, old(port.cursor);
            match IdentityVerdict(inc, c0)
            case NoReply =>
              outcome == Hung && port.sent == old(port.sent) + [IdentityRequest] && port.cursor == |inc|
            case NotRecognisedDevice =>
              outcome == NotRecognised && port.sent == old(port.sent) + [IdentityRequest]
              && port.cursor == PastReply(inc, c0)
            case Verified =>
              var voice, pos := PatchToUpload(file), PastReply(inc, c0);
              var s := UploadSends(SyxSize, |voice|, |inc| - pos);
              && port.sent == old(port.sent) + [IdentityRequest] + ParameterChanges(Parameters[..s], voice[..s])
              && port.cursor == pos + Min(s, |inc| - pos)
              && outcome == UploadOutcome(SyxSize, |voice|, |inc| - pos)
  {
    var voice := Zeros(SyxSize);
    if file.Some? {
      voice := file.value;
    }
    var verdict := Handshake(port);
    if verdict == Verified {
      outcome := SendParameters(port, Parameters, voice);
    } else if verdict == NotRecognisedDevice {
      outcome := NotRecognised;
    } else {
      outcome := Hung;
    }
  }

  /** What each download step obtains on a port whose SysEx replies carry the
      given values: the next value, until they run out. */
  function StepOutcomes(values: seq<byte>, n: nat): (steps: seq<Option<byte>>)
    ensures |steps| == n
    ensures forall j :: 0 <= j < n ==> (steps[j].Some? <==> j < |values|)
    ensures forall j :: 0 <= j < n && j < |values| ==> steps[j].value == values[j]
  {
    seq(n, j requires 0 <= j < n => if j < |values| then Some(values[j]) else None)
  }

  /** The values obtained, in order, leaving out the steps that got nothing. */
  function Received(outcomes: seq<Option<byte>>): (got: seq<byte>)
    ensures |got| <= |outcomes|
    ensures |got| == |outcomes| <==> forall i :: 0 <= i < |outcomes| ==> outcomes[i].Some?
  {
    if outcomes == [] then []
    else Received(outcomes[..|outcomes| - 1])
         + (if outcomes[|outcomes| - 1].Some? then [outcomes[|outcomes| - 1].value] else [])
  }

  /** The buffer when the slot index advances only on a received value ("Save As"). */
  function SlotsByReceipt(outcomes: seq<Option<byte>>, size: nat): (slots: seq<byte>)
    ensures |slots| == size
    ensures var got := Received(outcomes);
            forall i :: 0 <= i < size ==> slots[i] == if i < |got| then got[i] else 0
  {
    Fill(Received(outcomes), size)
  }

  /** The buffer when the slot index advances on every step ("Get Name"). */
  function SlotsByStep(outcomes: seq<Option<byte>>, size: nat): (slots: seq<byte>)
    ensures |slots| == size
    ensures forall i :: 0 <= i < size && i < |outcomes| && outcomes[i].Some? ==> slots[i] == outcomes[i].value
    ensures forall i :: 0 <= i < size && (i >= |outcomes| || outcomes[i].None?) ==> slots[i] == 0
  {
    seq(size, i requires 0 <= i < size => if i < |outcomes| && outcomes[i].Some? then outcomes[i].value else 0)
  }

  /** No step obtains a value after a step that obtained nothing. */
  predicate MissesTrail(outcomes: seq<Option<byte>>)
  {
    forall i, j :: 0 <= i < j < |outcomes| && outcomes[i].None? ==> outcomes[j].None?
  }

  /** When misses only trail, the received values are exactly the values of the
      leading steps. */
  lemma {:induction false} ReceivedWhenMissesTrail(outcomes: seq<Option<byte>>)
    requires MissesTrail(outcomes)
    ensures |Received(outcomes)| <= |outcomes|
    ensures forall i :: 0 <= i < |outcomes| ==> (i < |Received(outcomes)| <==> outcomes[i].Some?)
    ensures forall i :: 0 <= i < |Received(outcomes)| ==> outcomes[i] == Some(Received(outcomes)[i])
  {
    if outcomes != [] {
      var front := outcomes[..|outcomes| - 1];
      assert MissesTrail(front);
      ReceivedWhenMissesTrail(front);
      var last := outcomes[|outcomes| - 1];
      if last.Some? {
        forall i | 0 <= i < |front|
          ensures outcomes[i].Some?
        {
          assert front[i] == outcomes[i];
        }
      }
    }
  }

  /** The two ways of advancing the slot index fill the same buffer as long as
      no value arrives after a missing one. */
  lemma AlignedWhenMissesTrail(outcomes: seq<Option<byte>>, size: nat)
    requires MissesTrail(outcomes)
    ensures SlotsByReceipt(outcomes, size) == SlotsByStep(outcomes, size)
  {
    ReceivedWhenMissesTrail(outcomes);
    var a, b := SlotsByReceipt(outcomes, size), SlotsByStep(outcomes, size);
    forall i | 0 <= i < size
      ensures a[i] == b[i]
    {
    }
  }

  /** A missing value followed by a received one shows the difference: advancing
      on receipt moves the late value into the earlier slot. */
  lemma InteriorMissShifts(v: byte)
    requires v != 0
    ensures SlotsByReceipt([None, Some(v)], 2) == [v, 0]
    ensures SlotsByStep([None, Some(v)], 2) == [0, v]
    ensures SlotsByReceipt([None, Some(v)], 2) != SlotsByStep([None, Some(v)], 2)
  {
    var o: seq<Option<byte>> := [None, Some(v)];
    var front := o[..1];
    assert front[..0] == [] && front[0].None?;
    assert Received(front) == [];
    assert Received(o) == [v];
    assert SlotsByStep(o, 2)[0] == 0;
  }

  /** On a port that runs dry, misses only trail, so both disciplines give the
      values in order followed by zeros. */
  lemma DrainedPortFillsAlike(values: seq<byte>, n: nat)
    ensures MissesTrail(StepOutcomes(values, n))
    ensures SlotsByReceipt(StepOutcomes(values, n), n) == Fill(values, n)
    ensures SlotsByStep(StepOutcomes(values, n), n) == Fill(values, n)
  {
    var o := StepOutcomes(values, n);
    AlignedWhenMissesTrail(o, n);
    assert SlotsByStep(o, n) == Fill(values, n);
  }

  datatype Download = Download(voice: seq<byte>, warnings: nat, fileName: string)

  /** "Save As": unless no device is chosen, handshake, then for each table entry
      a dump request and a wait for a SysEx reply, whose parameter value goes
      into the next unfilled slot; a step without reply is warned about. */
  method RequestPatch(device: string, port: MidiPort) returns (outcome: Outcome, download: Option<Download>)
    requires port.Valid()
    modifies port
    ensures port.Valid()
    ensures download.Some? <==> outcome == Completed
    ensures device == [] ==>
              outcome == NoDevice && port.sent == old(port.sent) && port.cursor == old(port.cursor)
    ensures device != [] ==>
              var inc, c0 := port.incoming, old(port.cursor);
              match IdentityVerdict(inc, c0)
              case NoReply =>
                outcome == Hung && port.sent == old(port.sent) + [IdentityRequest] && port.cursor == |inc|
              case NotRecognisedDevice =>
                outcome == NotRecognised && port.sent == old(port.sent) + [IdentityRequest]
                && port.cursor == PastReply(inc, c0)
              case Verified =>
                var pos := PastReply(inc, c0);
                var values := RepliesFrom(inc, pos);
                && outcome == Completed
                && download.value.voice == SlotsByReceipt(StepOutcomes(values, SyxSize), SyxSize)
                && download.value.warnings == SyxSize - Min(|values|, SyxSize)
                && download.value.fileName == SuggestedFileName(download.value.voice)
                && port.sent == old(port.sent) + [IdentityRequest] + DumpRequests(Parameters)
                && port.cursor == AfterReplies(inc, pos, SyxSize)
  {
    if |device| < 1 {
      return NoDevice, None;
    }
    var verdict := Handshake(port);
    if verdict != Verified {
      outcome := if verdict == NoReply then Hung else NotRecognised;
      return outcome, None;
    }
    ghost var values := RepliesFrom(port.incoming, port.cursor);
    var voice, warnings := CollectByReceipt(port, Parameters);
    DrainedPortFillsAlike(values, SyxSize);
    TableShape();
    var patchName := DecodeName(voice[..10]);
    outcome := Completed;
    download := Some(Download(voice[..], warnings, Sanitize(Strip(patchName)) + ".syx"));
  }

  /** "Get Name": unless no device is chosen, handshake, then for each name entry
      a dump request and a wait for a SysEx reply, whose value goes into the slot
      of that step; the name shown is built from the ten bytes, unstripped. */
  method GetPatchName(device: string, port: MidiPort) returns (outcome: Outcome, display: Option<string>)
    requires port.Valid()
    modifies port
    ensures port.Valid()
    ensures device == [] ==>
              outcome == NoDevice && display == Some("Dyna Choir")
              && port.sent == old(port.sent) && port.cursor == old(port.cursor)
    ensures device != [] ==>
              var inc, c0 := port.incoming, old(port.cursor);
              match IdentityVerdict(inc, c0)
              case NoReply =>
                outcome == Hung && display == None
                && port.sent == old(port.sent) + [IdentityRequest] && port.cursor == |inc|
              case NotRecognisedDevice =>
                outcome == NotRecognised && display == Some(DisplayName(Zeros(|NameBlock|)))
                && port.sent == old(port.sent) + [IdentityRequest] && port.cursor == PastReply(inc, c0)
              case Verified =>
                var pos := PastReply(inc, c0);
                var values := RepliesFrom(inc, pos);
                && outcome == Completed
                && display == Some(DisplayName(SlotsByStep(StepOutcomes(values, |NameBlock|), |NameBlock|)))
                && port.sent == old(port.sent) + [IdentityRequest] + DumpRequests(NameBlock)
                && port.cursor == AfterReplies(inc, pos, |NameBlock|)
  {
    if |device| < 1 {
      return NoDevice, Some("Dyna Choir");
    }
    var nameBytes := new byte[|NameBlock|](_ => 0);
    var verdict := Handshake(port);
    if verdict == NoReply {
      return Hung, None;
    }
    if verdict == Verified {
      ghost var values := RepliesFrom(port.incoming, port.cursor);
      nameBytes := CollectByStep(port, NameBlock);
      DrainedPortFillsAlike(values, |NameBlock|);
      outcome := Completed;
    } else {
      assert nameBytes[..] == Zeros(|NameBlock|);
      outcome := NotRecognised;
    }
    var nameStr := DecodeName(nameBytes[..]);
    display := Some(Sanitize(nameStr));
  }

  /** "Set Name": builds the ten name bytes, then, unless no device is chosen,
      handshake and a lockstep upload of the name entries. */
  method SetPatchName(name: string, device: string, port: MidiPort) returns (outcome: Outcome)
    requires Latin1(name)
    requires port.Valid()
    modifies port
    ensures port.Valid()
    ensures device == [] ==>
              outcome == NoDevice && port.sent == old(port.sent) && port.cursor == old(port.cursor)
    ensures device != [] ==>
              var inc, c0 := port.incoming, old(port.cursor);
              match IdentityVerdict(inc, c0)
              case NoReply =>
                outcome == Hung && port.sent == old(port.sent) + [IdentityRequest] && port.cursor == |inc|
              case NotRecognisedDevice =>
                outcome == NotRecognised && port.sent == old(port.sent) + [IdentityRequest]
                && port.cursor == PastReply(inc, c0)
              case Verified =>
                var pos := PastReply(inc, c0);
                var s := UploadSends(|NameBlock|, 10, |inc| - pos);
                && port.sent == old(port.sent) + [IdentityRequest]
                   + ParameterChanges(NameBlock[..s], EncodeName(name)[..s])
                && port.cursor == pos + Min(s, |inc| - pos)
                && outcome == UploadOutcome(|NameBlock|, 10, |inc| - pos)
  {
    var nameBytes := NameCodes(name);
    if |device| < 1 {
      return NoDevice;
    }
    var verdict := Handshake(port);
    if verdict == Verified {
      outcome := SendParameters(port, NameBlock, nameBytes);
    } else if verdict == NotRecognisedDevice {
      outcome := NotRecognised;
    } else {
      outcome := Hung;
    }
  }
}
