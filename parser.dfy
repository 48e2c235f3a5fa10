/** The parsing context of the MUSE XML decoder (class MuseXmlParser): its
    fields are updated in place by the setters, by the three expat handlers
    and by makeZcg; writeCSV reads them to build the CSV table. Every method
    is proved against the value model of module States, Zcg and Leads. */
module MuseXml {
  import opened Wrappers
  import opened Errors
  import opened Bytes
  import Text
  import Base64
  import opened States
  import opened Zcg
  import opened Leads

  class MuseXmlParser {
    var state: State
    var foundRhythm: bool
    var sampleRate: int
    var aduGain: real
    var units: string
    var leadId: Option<string>
    var ecgData: map<string, seq<Byte>>
    var ecgLeads: seq<string>
    /** The interleaved sample buffer; empty until makeZcg runs. */
    var zcg: seq<int>

    /** The decode context the fields hold. */
    function Snapshot(): (r: Context)
      reads this
    {
      Context(state, foundRhythm, sampleRate, aduGain, units, leadId, ecgData, ecgLeads)
    }

    /** The state chain has a reachable shape and the lead list and the buffer
        map name the same leads. */
    ghost predicate Valid()
      reads this
    {
      WellFormed(state) && LeadsMatchData(ecgData, ecgLeads)
    }

    constructor ()
      ensures Snapshot() == Initial && zcg == []
      ensures Valid()
    {
      state := Idle("");
      foundRhythm := false;
      sampleRate := 0;
      aduGain := 1.0;
      units := "";
      leadId := None;
      ecgData := map[];
      ecgLeads := [];
      zcg := [];
    }

    method SetState(s: State)
      modifies this`state
      ensures state == s
    {
      state := s;
    }

    /** setSampleBase: only a rhythm waveform's rate is kept; int() of a text
        that is not an integer literal is an error. The only caller passes
        stripped text, on which ParseInt is int(). */
    method SetSampleBase(text: string) returns (r: Outcome<Error>)
      modifies this`sampleRate
      ensures !foundRhythm ==> r == Pass && sampleRate == old(sampleRate)
      ensures foundRhythm ==> match Text.ParseInt(text)
        case None => r == Fail(BadInteger(text)) && sampleRate == old(sampleRate)
        case Some(v) => r == Pass && sampleRate == v
    {
      r := Pass;
      if foundRhythm {
        var v := Text.ParseInt(text);
        if v.None? {
          return Fail(BadInteger(text));
        }
        sampleRate := v.value;
      }
    }

    method SetAdu(gain: real)
      modifies this`aduGain
      ensures aduGain == gain
    {
      aduGain := gain;
    }

    method SetUnits(u: string)
      modifies this`units
      ensures units == u
    {
      units := u;
    }

    method SetRhythmFound(v: bool)
      modifies this`foundRhythm
      ensures foundRhythm == v
    {
      foundRhythm := v;
    }

    /** addLeadId: the current lead is replaced, not appended to. */
    method AddLeadId(id: string)
      modifies this`leadId
      ensures leadId == Some(id)
    {
      leadId := Some(id);
    }

    /** addWaveformData: decode first, then look the current lead up, then
        store the buffer under it and append it to the lead list. */
    method AddWaveformData(text: string) returns (r: Outcome<Error>)
      modifies this`ecgData, this`ecgLeads
      ensures match States.AddWaveformData(old(Snapshot()), text)
        case Ok(c) => r == Pass && Snapshot() == c
        case Err(e) => r == Fail(e) && Snapshot() == old(Snapshot())
    {
      var bytes := Base64.Decode(text);
      if bytes.None? {
        return Fail(BadBase64(text));
      }
      if leadId.None? {
        return Fail(NoLeadId);
      }
      ecgData := ecgData[leadId.value := bytes.value];
      ecgLeads := ecgLeads + [leadId.value];
      r := Pass;
    }

    /** start_element, dispatched to the current state. */
    method StartElement(name: string)
      requires Valid()
      modifies this`state
      ensures Snapshot() == StartStep(old(Snapshot()), name)
      ensures Valid()
    {
      StepPreserves(Snapshot(), Start(name));
      match state
      case Idle(_) =>
        if name == Tag(Waveform) {
          SetState(Active(Waveform, "", state));
        }
      case Active(e, _, _) =>
        state := Cleared(state);
        var child := Child(e, name);
        if child.Some? {
          SetState(Active(child.value, "", state));
        }
    }

    /** char_data: the text is appended to the current state's. */
    method CharData(data: string)
      requires Valid()
      modifies this`state
      ensures Snapshot() == CharStep(old(Snapshot()), data)
      ensures Valid()
    {
      StepPreserves(Snapshot(), Event.CharData(data));
      state := state.(text := state.text + data);
    }

    /** SampleBaseElementParser.end_element after the restore: a rhythm
        waveform's rate is parsed from the text. */
    method SampleBaseEnd(data: string) returns (r: Outcome<Error>)
      modifies this`sampleRate
      ensures match Action(SampleBase, old(Snapshot()), data)
        case Ok(c) => r == Pass && Snapshot() == c
        case Err(x) => r == Fail(x) && Snapshot() == old(Snapshot())
    {
      r := SetSampleBase(data);
    }

    /** LeadUnitsPerBitElementParser.end_element after the restore: the gain
        is parsed from the text, whatever the waveform type. */
    method UnitsPerBitEnd(data: string) returns (r: Outcome<Error>)
      modifies this`aduGain
      ensures match Action(LeadAmplitudeUnitsPerBit, old(Snapshot()), data)
        case Ok(c) => r == Pass && Snapshot() == c
        case Err(x) => r == Fail(x) && Snapshot() == old(Snapshot())
    {
      // float(string.strip(getData())): stripping the stripped text again
      // changes nothing (Text.StripIdempotent)
      var gain := Text.ParseReal(data);
      if gain.None? {
        return Fail(BadFloat(data));
      }
      SetAdu(gain.value);
      r := Pass;
    }

    /** LeadUnitsElementParser.end_element after the restore: the units
        become the text. */
    method UnitsEnd(data: string) returns (r: Outcome<Error>)
      modifies this`units
      ensures match Action(LeadAmplitudeUnits, old(Snapshot()), data)
        case Ok(c) => r == Pass && Snapshot() == c
        case Err(x) => r == Fail(x) && Snapshot() == old(Snapshot())
    {
      SetUnits(data);
      r := Pass;
    }

    /** WaveformTypeElementParser.end_element after the restore: the waveform
        is a rhythm waveform when its type contains "Rhythm". */
    method WaveformTypeEnd(data: string) returns (r: Outcome<Error>)
      modifies this`foundRhythm
      ensures match Action(WaveformType, old(Snapshot()), data)
        case Ok(c) => r == Pass && Snapshot() == c
        case Err(x) => r == Fail(x) && Snapshot() == old(Snapshot())
    {
      SetRhythmFound(Text.Find(data, "Rhythm") >= 0);
      r := Pass;
    }

    /** LeadIdElementParser.end_element after the restore: a rhythm
        waveform's current lead becomes the text. */
    method LeadIdEnd(data: string) returns (r: Outcome<Error>)
      modifies this`leadId
      ensures match Action(LeadID, old(Snapshot()), data)
        case Ok(c) => r == Pass && Snapshot() == c
        case Err(x) => r == Fail(x) && Snapshot() == old(Snapshot())
    {
      if foundRhythm {
        AddLeadId(data);
      }
      r := Pass;
    }

    /** WaveformDataElementParser.end_element after the restore: in a rhythm
        waveform the current lead is read (by the progress message) and then
        the text is decoded and stored for it. */
    method WaveformDataEnd(data: string) returns (r: Outcome<Error>)
      modifies this`ecgData, this`ecgLeads
      ensures match Action(WaveFormData, old(Snapshot()), data)
        case Ok(c) => r == Pass && Snapshot() == c
        case Err(x) => r == Fail(x) && Snapshot() == old(Snapshot())
    {
      r := Pass;
      if foundRhythm {
        if leadId.None? {
          return Fail(NoLeadId);
        }
        r := AddWaveformData(data);
      }
    }

    /** The end_element action of element e once its parent state has been
        restored, on the text e collected as getData returns it. */
    method Act(e: Element, data: string) returns (r: Outcome<Error>)
      modifies this`foundRhythm, this`sampleRate, this`aduGain, this`units, this`leadId,
        this`ecgData, this`ecgLeads
      ensures match Action(e, old(Snapshot()), data)
        case Ok(c) => r == Pass && Snapshot() == c
        case Err(x) => r == Fail(x) && Snapshot() == old(Snapshot())
    {
      match e
      case Waveform => r := Pass;
      case LeadData => r := Pass;
      case SampleBase => r := SampleBaseEnd(data);
      case LeadAmplitudeUnitsPerBit => r := UnitsPerBitEnd(data);
      case LeadAmplitudeUnits => r := UnitsEnd(data);
      case WaveformType => r := WaveformTypeEnd(data);
      case LeadID => r := LeadIdEnd(data);
      case WaveFormData => r := WaveformDataEnd(data);
    }

    /** end_element, dispatched to the current state. The enclosing state is
        restored before the element's action, so when the action fails the
        restore has already happened and nothing else has changed. */
    method EndElement(name: string) returns (r: Outcome<Error>)
      requires Valid()
      modifies this`state, this`foundRhythm, this`sampleRate, this`aduGain, this`units,
        this`leadId, this`ecgData, this`ecgLeads
      ensures match EndStep(old(Snapshot()), name)
        case Ok(c) => r == Pass && Snapshot() == c
        case Err(e) => r == Fail(e) && old(state).Active? && Snapshot() == old(Snapshot()).(state := old(state).back)
      ensures Valid()
    {
      StepPreserves(Snapshot(), End(name));
      r := Pass;
      match state
      case Idle(_) =>
        state := Cleared(state);
      case Active(e, text, back) =>
        if name == Tag(e) {
          SetState(back);
          r := Act(e, Text.Strip(text));
        }
    }

    /** The expat handlers fed the document's events in order; the first
        exception ends the parse. */
    method Feed(events: seq<Event>) returns (r: Outcome<Error>)
      requires Valid()
      modifies this`state, this`foundRhythm, this`sampleRate, this`aduGain, this`units,
        this`leadId, this`ecgData, this`ecgLeads
      ensures Valid()
      ensures match Run(old(Snapshot()), events)
        case Ok(c) => r == Pass && Snapshot() == c
        case Err(e) => r == Fail(e)
    {
      var i := 0;
      while i < |events|
        invariant 0 <= i <= |events|
        invariant Valid()
        invariant Run(old(Snapshot()), events) == Run(Snapshot(), events[i..])
      {
        assert events[i..][0] == events[i] && events[i..][1..] == events[i + 1..];
        var ev := events[i];
        if ev.Start? {
          StartElement(ev.name);
        } else if ev.End? {
          r := EndElement(ev.name);
          if r.Fail? {
            return;
          }
        } else {
          CharData(ev.data);
        }
        i := i + 1;
      }
      r := Pass;
    }

    /** One pass of makeZcg's inner loop: sample t/2 (bytes t and t+1) of
        every lead, in lead-list order, appended to the buffer. It fails, as
        the byte read does, when some buffer is shorter than t + 2 bytes. */
    method AppendSamples(t: nat) returns (ok: bool)
      requires t % 2 == 0
      requires forall k :: 0 <= k < |ecgLeads| ==> ecgLeads[k] in ecgData
      modifies this`zcg
      ensures ok <==> Covers(ecgData, ecgLeads, t + 2)
      ensures ok ==> zcg == old(zcg) + Timestep(ecgData, ecgLeads, t / 2)
    {
      ghost var done := zcg;
      var k := 0;
      while k < |ecgLeads|
        invariant 0 <= k <= |ecgLeads|
        invariant forall j :: 0 <= j < k ==> |ecgData[ecgLeads[j]]| >= t + 2
        invariant |zcg| == |done| + k && zcg[..|done|] == done
        invariant forall j :: 0 <= j < k ==> zcg[|done| + j] == SampleAt(ecgData[ecgLeads[j]], t / 2)
      {
        var buf := ecgData[ecgLeads[k]];
        if t + 1 >= |buf| {
          return false;
        }
        zcg := zcg + [Int16LE(buf[t], buf[t + 1])];
        k := k + 1;
      }
      ok := true;
      assert zcg == done + Timestep(ecgData, ecgLeads, t / 2);
    }

    /** makeZcg's check loop: the position of the first independent lead
        missing from the lead list, or 8 when all are recorded. */
    static method FirstMissing(leads: seq<string>) returns (j: nat)
      ensures j == Missing(leads, IndependentLeads)
    {
      for i := 0 to |IndependentLeads|
        invariant forall j :: 0 <= j < i ==> IndependentLeads[j] in leads
      {
        if IndependentLeads[i] !in leads {
          return i;
        }
      }
      return |IndependentLeads|;
    }

    /** makeZcg's sample loop: sample t/2 of every lead is appended for
        t = 0, 2, .. < n, where n is the first lead's buffer length. It
        stops at the first read past the end of a buffer. */
    method AppendAll(n: nat) returns (r: Outcome<Error>)
      requires forall k :: 0 <= k < |ecgLeads| ==> ecgLeads[k] in ecgData
      requires |ecgLeads| > 0 && n == |ecgData[ecgLeads[0]]|
      requires zcg == []
      modifies this`zcg
      ensures r == Pass || r == Fail(ShortBuffer)
      ensures r.Pass? <==> n % 2 == 0 && Covers(ecgData, ecgLeads, n)
      ensures r.Pass? ==> zcg == Interleaved(ecgData, ecgLeads, n / 2)
    {
      var t := 0;
      while t < n
        invariant t % 2 == 0 && t <= n
        invariant Covers(ecgData, ecgLeads, t)
        invariant zcg == Interleaved(ecgData, ecgLeads, t / 2)
      {
        var ok := AppendSamples(t);
        if !ok {
          var k :| 0 <= k < |ecgLeads| && |ecgData[ecgLeads[k]]| < t + 2;
          if |ecgData[ecgLeads[k]]| >= n {
            assert n % 2 == 1;
          }
          return Fail(ShortBuffer);
        }
        assert |ecgData[ecgLeads[0]]| >= t + 2;
        assert (t + 2) / 2 == t / 2 + 1;
        t := t + 2;
      }
      r := Pass;
    }

    /** makeZcg: the first lead's buffer length n is read first, then every
        independent lead must be recorded, then the samples are appended. On
        success the buffer is the interleaving of all the leads; a missing
        lead leaves it empty; a short buffer leaves the samples appended
        before the failing read. */
    method MakeZcg() returns (r: Outcome<Error>)
      requires Valid()
      modifies this`zcg
      ensures r == match Failure(ecgData, ecgLeads) case None => Pass case Some(e) => Fail(e)
      ensures r.Pass? ==> zcg == Interleaved(ecgData, ecgLeads, |ecgData[ecgLeads[0]]| / 2)
      ensures r == Fail(NoLeads) ==> zcg == old(zcg)
      ensures r.Fail? && r.error.MissingLead? ==> zcg == []
    {
      if |ecgLeads| == 0 {
        return Fail(NoLeads);
      }
      var n := |ecgData[ecgLeads[0]]|;
      zcg := [];
      var j := FirstMissing(ecgLeads);
      if j < |IndependentLeads| {
        return Fail(MissingLead(IndependentLeads[j]));
      }
      r := AppendAll(n);
    }

    /** writeCSV's header: the twelve standard columns, then every recorded
        lead in the symmetric difference, in lead-list order. */
    method CsvHeader() returns (header: seq<string>)
      ensures header == Header(ecgLeads)
    {
      var extra := ExtraSet(ecgLeads);
      header := CanonicalLeads;
      for k := 0 to |ecgLeads|
        invariant header == CanonicalLeads + Select(ecgLeads[..k], extra)
      {
        assert ecgLeads[..k + 1][..k] == ecgLeads[..k];
        if ecgLeads[k] in extra {
          header := header + [ecgLeads[k]];
        }
      }
      assert ecgLeads[..|ecgLeads|] == ecgLeads;
    }

    /** writeCSV's inner loop at buffer offset i: samples[ecgLeads[k]] =
        zcg[i + k] for each k in order. Every key of the dictionary is a lead,
        so nothing of the previous row survives. */
    method FillSamples(samples: map<string, real>, i: nat) returns (s: map<string, real>)
      requires i + |ecgLeads| <= |zcg|
      requires forall l :: l in samples ==> l in ecgLeads
      ensures s == RowSamples(zcg, ecgLeads, i)
    {
      s := Fill(samples, ecgLeads, zcg[i..i + |ecgLeads|]);
      FillIsRowSamples(zcg, ecgLeads, i, samples);
    }

    /** samples[leads[k]] = vals[k] for each k in order. */
    static method Fill(samples: map<string, real>, leads: seq<string>, vals: seq<int>) returns (s: map<string, real>)
      requires |vals| == |leads|
      ensures s == Assign(samples, leads, vals)
    {
      s := samples;
      for k := 0 to |leads|
        invariant s == Assign(samples, leads[..k], vals[..k])
      {
        AssignSnoc(samples, leads, vals, k);
        s := s[leads[k] := vals[k] as real];
      }
      assert leads[..|leads|] == leads && vals[..|vals|] == vals;
    }

    /** One CSV row from the samples dictionary: the twelve standard columns,
        then the extra leads, each times the gain and truncated. */
    static method CsvRow(leads: seq<string>, gain: real, samples: map<string, real>) returns (row: seq<int>)
      requires HasIndependent(samples)
      requires forall l :: l in leads ==> l in samples
      ensures row == Row(samples, gain, leads)
    {
      var extra := ExtraSet(leads);
      row := Scaled(Derived(samples), gain);
      assert Derived(samples) + Values(samples, Select(leads[..0], extra)) == Derived(samples);
      for k := 0 to |leads|
        invariant row == Scaled(Derived(samples) + Values(samples, Select(leads[..k], extra)), gain)
      {
        RowGrows(Derived(samples), samples, leads, extra, k, gain);
        if leads[k] in extra {
          row := row + [Scale(samples[leads[k]], gain)];
        }
      }
      assert leads[..|leads|] == leads;
    }

    /** writeCSV's table, without the file: the header, then one row per
        timestep of the buffer. The samples dictionary persists across rows,
        but every row overwrites all of its keys. */
    method CsvTable() returns (header: seq<string>, rows: seq<seq<int>>)
      requires RecordsIndependent(ecgLeads)
      requires |zcg| % |ecgLeads| == 0
      ensures header == Header(ecgLeads)
      ensures |rows| * |ecgLeads| == |zcg|
      ensures rows == Table(zcg, ecgLeads, aduGain, |rows|)
    {
      header := CsvHeader();
      var L := |ecgLeads|;
      var samples: map<string, real> := map[];
      rows := [];
      var i := 0;
      while i < |zcg|
        invariant i == |rows| * L && i <= |zcg|
        invariant forall l :: l in samples ==> l in ecgLeads
        invariant rows == Table(zcg, ecgLeads, aduGain, |rows|)
      {
        RowFits(|rows|, |zcg|, L);
        samples := FillSamples(samples, i);
        var row := CsvRow(ecgLeads, aduGain, samples);
        TableSnoc(zcg, ecgLeads, aduGain, |rows|, samples, row);
        NextRow(|rows|, L);
        rows := rows + [row];
        i := i + L;
      }
    }
  }
}
