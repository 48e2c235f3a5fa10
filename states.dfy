/** The element state machine of the MUSE XML decoder, as values: the parsing
    states, the decode context they update, and one step function per expat
    event. The class MuseXml.MuseXmlParser performs the same steps in place. */
module States {
  import opened Wrappers
  import opened Errors
  import opened Bytes
  import Text
  import Base64

  /** The elements that have a parsing state of their own. */
  datatype Element =
    | Waveform | WaveformType | SampleBase | LeadData
    | LeadID | WaveFormData | LeadAmplitudeUnitsPerBit | LeadAmplitudeUnits

  /** The element's tag in the document. */
  function Tag(e: Element): (r: string) {
    match e
    case Waveform => "Waveform"
    case WaveformType => "WaveformType"
    case SampleBase => "SampleBase"
    case LeadData => "LeadData"
    case LeadID => "LeadID"
    case WaveFormData => "WaveFormData"
    case LeadAmplitudeUnitsPerBit => "LeadAmplitudeUnitsPerBit"
    case LeadAmplitudeUnits => "LeadAmplitudeUnits"
  }

  /** A parsing state: its collected character text and, except for Idle, the
      state to restore at the element's end. */
  datatype State =
    | Idle(text: string)
    | Active(elem: Element, text: string, back: State)

  /** The element whose state a start tag enters from element e: Waveform
      enters WaveformType, LeadData and SampleBase; LeadData enters its four
      children; the other elements enter nothing. */
  function Child(e: Element, name: string): (r: Option<Element>) {
    match e
    case Waveform =>
      if name == Tag(WaveformType) then Some(WaveformType)
      else if name == Tag(LeadData) then Some(LeadData)
      else if name == Tag(SampleBase) then Some(SampleBase)
      else None
    case LeadData =>
      if name == Tag(LeadID) then Some(LeadID)
      else if name == Tag(WaveFormData) then Some(WaveFormData)
      else if name == Tag(LeadAmplitudeUnitsPerBit) then Some(LeadAmplitudeUnitsPerBit)
      else if name == Tag(LeadAmplitudeUnits) then Some(LeadAmplitudeUnits)
      else None
    case _ => None
  }

  /** The shape of every reachable chain of states: Idle, then Waveform, then
      WaveformType, SampleBase or LeadData, then one of LeadData's children. */
  predicate WellFormed(s: State) {
    match s
    case Idle(_) => true
    case Active(e, _, b) =>
      match e
      case Waveform => b.Idle?
      case WaveformType | SampleBase | LeadData => b.Active? && b.elem == Waveform && WellFormed(b)
      case _ => b.Active? && b.elem == LeadData && WellFormed(b)
  }

  /** How many states lie below s in the chain. */
  function Depth(s: State): (r: nat) {
    match s
    case Idle(_) => 0
    case Active(_, _, b) => 1 + Depth(b)
  }

  /** The events expat delivers, in document order (attributes are ignored by
      every state, so they are left out). */
  datatype Event = Start(name: string) | End(name: string) | CharData(data: string)

  /** The decode context (MuseXmlParser's fields). leadId is None until the
      first LeadID of a rhythm waveform ends: the program never initialises it. */
  datatype Context = Context(
    state: State,
    foundRhythm: bool,
    sampleRate: int,
    aduGain: real,
    units: string,
    leadId: Option<string>,
    ecgData: map<string, seq<Byte>>,
    ecgLeads: seq<string>)

  /** The context of a fresh parser. */
  const Initial: Context := Context(Idle(""), false, 0, 1.0, "", None, map[], [])

  /** Every recorded lead has a buffer and every buffer belongs to a recorded lead. */
  ghost predicate LeadsMatchData(data: map<string, seq<Byte>>, leads: seq<string>) {
    forall l :: l in data <==> l in leads
  }

  /** The collected text as getData returns it. */
  function Data(s: State): (r: string) {
    Text.Strip(s.text)
  }

  /** The text of s discarded (clearData). */
  function Cleared(s: State): (r: State) {
    s.(text := "")
  }

  /** The state after a start tag: Idle enters Waveform and keeps its text;
      every other state clears its text and then may enter a child element. */
  function Enter(s: State, name: string): (r: State) {
    match s
    case Idle(_) => if name == Tag(Waveform) then Active(Waveform, "", s) else s
    case Active(e, _, _) =>
      match Child(e, name)
      case Some(child) => Active(child, "", Cleared(s))
      case None => Cleared(s)
  }

  /** A start tag changes only the state. */
  function StartStep(c: Context, name: string): (r: Context) {
    c.(state := Enter(c.state, name))
  }

  /** Character data is appended to the current state's text. */
  function CharStep(c: Context, data: string): (r: Context) {
    c.(state := c.state.(text := c.state.text + data))
  }

  /** addWaveformData: the decoded buffer replaces the current lead's, and the
      lead is appended to the lead list. */
  function AddWaveformData(c: Context, text: string): (r: Result<Context, Error>) {
    match Base64.Decode(text)
    case None => Err(BadBase64(text))
    case Some(bytes) =>
      match c.leadId
      case None => Err(NoLeadId)
      case Some(id) => Ok(c.(ecgData := c.ecgData[id := bytes], ecgLeads := c.ecgLeads + [id]))
  }

  /** What element e does at its own end tag, in the context up whose state
      has already been restored, with the collected text data. */
  function Action(e: Element, up: Context, data: string): (r: Result<Context, Error>) {
    match e
    case Waveform => Ok(up)
    case LeadData => Ok(up)
    case SampleBase =>
      if !up.foundRhythm then Ok(up)
      else (match Text.ParseInt(data)
            case None => Err(BadInteger(data))
            case Some(rate) => Ok(up.(sampleRate := rate)))
    case LeadAmplitudeUnitsPerBit =>
      // float(string.strip(getData())): stripping twice is stripping once
      (match Text.ParseReal(data)
       case None => Err(BadFloat(data))
       case Some(gain) => Ok(up.(aduGain := gain)))
    case LeadAmplitudeUnits => Ok(up.(units := data))
    case WaveformType => Ok(up.(foundRhythm := Text.Find(data, "Rhythm") >= 0))
    case LeadID => if up.foundRhythm then Ok(up.(leadId := Some(data))) else Ok(up)
    case WaveFormData =>
      // the progress message formats lead_Id before the data is decoded
      if !up.foundRhythm then Ok(up)
      else if up.leadId.None? then Err(NoLeadId)
      else AddWaveformData(up, data)
  }

  /** An end tag. Idle clears its text; any other state ignores an end tag
      that is not its own. Its own end tag restores the enclosing state and
      then acts on the collected text as the element requires. */
  function EndStep(c: Context, name: string): (r: Result<Context, Error>) {
    match c.state
    case Idle(_) => Ok(c.(state := Cleared(c.state)))
    case Active(e, _, back) =>
      if name != Tag(e) then Ok(c) else Action(e, c.(state := back), Data(c.state))
  }

  function Step(c: Context, ev: Event): (r: Result<Context, Error>) {
    match ev
    case Start(name) => Ok(StartStep(c, name))
    case End(name) => EndStep(c, name)
    case CharData(data) => Ok(CharStep(c, data))
  }

  /** The events handled in order; the first error ends the parse. */
  function Run(c: Context, evs: seq<Event>): (r: Result<Context, Error>)
    decreases |evs|
  {
    if evs == [] then Ok(c)
    else match Step(c, evs[0])
      case Err(e) => Err(e)
      case Ok(next) => Run(next, evs[1..])
  }

  // ---------------------------------------------------------------------
  // Properties of single steps

  /** Character data is concatenated onto the current state's text and
      changes nothing else. */
  lemma CharDataAppends(c: Context, data: string)
    ensures var d := CharStep(c, data);
      d.state.text == c.state.text + data
      && d.state == c.state.(text := d.state.text)
      && d.(state := c.state) == c
  {
  }

  /** A start tag seen by any state but Idle clears that state's text: either
      the state stays current with no text, or it is suspended with no text
      under a fresh child whose text is empty too. Nothing else changes. */
  lemma StartClears(c: Context, name: string)
    requires c.state.Active?
    ensures var d := StartStep(c, name);
      d.(state := c.state) == c
      && (if Child(c.state.elem, name).Some?
          then d.state == Active(Child(c.state.elem, name).value, "", Cleared(c.state))
          else d.state == Cleared(c.state))
  {
  }

  /** Idle is left only by a start tag named Waveform, and then for the
      Waveform state over Idle with its text kept. */
  lemma IdleLeftOnlyByWaveform(c: Context, ev: Event)
    requires c.state.Idle?
    ensures Step(c, ev).Ok?
    ensures Step(c, ev).value.state.Idle? <==> ev != Start("Waveform")
    ensures ev == Start("Waveform") ==> Step(c, ev).value == c.(state := Active(Waveform, "", c.state))
    ensures ev != Start("Waveform") ==> Step(c, ev).value.(state := c.state) == c
  {
  }

  /** An end tag that is not the current element's own changes nothing at all. */
  lemma MismatchedEndIgnored(c: Context, name: string)
    requires c.state.Active? && name != Tag(c.state.elem)
    ensures EndStep(c, name) == Ok(c)
  {
  }

  /** The current element's own end tag always returns to the enclosing state,
      whatever else it does; it fails only on a malformed number or a
      malformed or misplaced waveform. */
  lemma MatchingEndRestores(c: Context)
    requires c.state.Active?
    ensures var r := EndStep(c, Tag(c.state.elem));
      (r.Ok? ==> r.value.state == c.state.back)
      && (r.Err? ==> c.state.elem in {SampleBase, LeadAmplitudeUnitsPerBit, WaveFormData})
  {
    var up := c.(state := c.state.back);
    assert EndStep(c, Tag(c.state.elem)) == Action(c.state.elem, up, Data(c.state));
    ActionKeepsState(c.state.elem, up, Data(c.state));
  }

  /** No action changes the state it is given, and only the numeric elements
      and WaveFormData can fail. */
  lemma ActionKeepsState(e: Element, up: Context, data: string)
    ensures var r := Action(e, up, data);
      (r.Ok? ==> r.value.state == up.state)
      && (r.Err? ==> e in {SampleBase, LeadAmplitudeUnitsPerBit, WaveFormData})
  {
    match e
    case Waveform =>
    case LeadData =>
    case SampleBase =>
    case LeadAmplitudeUnitsPerBit =>
    case LeadAmplitudeUnits =>
    case WaveformType =>
    case LeadID =>
    case WaveFormData =>
  }

  /** The end of WaveformType restores the enclosing state and sets
      foundRhythm exactly when the stripped text contains "Rhythm". */
  lemma WaveformTypeClassifies(c: Context)
    requires c.state.Active? && c.state.elem == WaveformType
    ensures EndStep(c, "WaveformType").Ok?
    ensures var d := EndStep(c, "WaveformType").value;
      d.state == c.state.back
      && (d.foundRhythm <==> Text.Contains(Text.Strip(c.state.text), "Rhythm"))
      && d.(state := c.state, foundRhythm := c.foundRhythm) == c
  {
    Text.FindFirst(Text.Strip(c.state.text), "Rhythm");
  }

  /** Outside a rhythm waveform, the ends of LeadID, WaveFormData and
      SampleBase only restore the enclosing state. */
  lemma NonRhythmEndsOnlyRestore(c: Context, name: string)
    requires !c.foundRhythm && c.state.Active?
    requires c.state.elem in {LeadID, WaveFormData, SampleBase}
    ensures EndStep(c, name) == Ok(if name == Tag(c.state.elem) then c.(state := c.state.back) else c)
  {
    if name == Tag(c.state.elem) {
      if c.state.elem == LeadID {
        assert EndStep(c, name) == Action(LeadID, c.(state := c.state.back), Data(c.state));
      } else if c.state.elem == WaveFormData {
        assert EndStep(c, name) == Action(WaveFormData, c.(state := c.state.back), Data(c.state));
      } else {
        assert EndStep(c, name) == Action(SampleBase, c.(state := c.state.back), Data(c.state));
      }
    }
  }

  /** In a rhythm waveform the end of SampleBase sets the sample rate to
      int() of the stripped text, or fails with that text. */
  lemma RhythmSampleBase(c: Context)
    requires c.foundRhythm && c.state.Active? && c.state.elem == SampleBase
    ensures var r := EndStep(c, "SampleBase");
      var data := Text.Strip(c.state.text);
      (r.Ok? <==> Text.IsIntLiteral(data))
      && (r.Ok? ==> r.value == c.(state := c.state.back, sampleRate := Text.IntLiteralValue(data)))
      && (r.Err? ==> r.error == BadInteger(data))
  {
    var up, data := c.(state := c.state.back), Data(c.state);
    assert EndStep(c, "SampleBase") == Action(SampleBase, up, data);
    SampleBaseAction(up, data);
  }

  /** The SampleBase action of a rhythm waveform, on any text. */
  lemma SampleBaseAction(up: Context, data: string)
    requires up.foundRhythm
    ensures var r := Action(SampleBase, up, data);
      (r.Ok? <==> Text.IsIntLiteral(data))
      && (r.Ok? ==> r.value == up.(sampleRate := Text.IntLiteralValue(data)))
      && (r.Err? ==> r.error == BadInteger(data))
  {
  }

  /** In a rhythm waveform the end of LeadID records the stripped text as the
      current lead; the lead list is not touched. */
  lemma RhythmLeadId(c: Context)
    requires c.foundRhythm && c.state.Active? && c.state.elem == LeadID
    ensures EndStep(c, "LeadID") == Ok(c.(state := c.state.back, leadId := Some(Text.Strip(c.state.text))))
  {
  }

  /** In a rhythm waveform the end of WaveFormData stores the decoded text as
      the current lead's buffer, replacing any earlier one, and appends the
      lead to the list (again if already there); nothing else changes. It fails
      when no lead has been named, and otherwise when the text is not base64. */
  lemma RhythmWaveformData(c: Context)
    requires c.foundRhythm && c.state.Active? && c.state.elem == WaveFormData
    ensures var r := EndStep(c, "WaveFormData");
      var bytes := Base64.Decode(Text.Strip(c.state.text));
      (r.Ok? <==> bytes.Some? && c.leadId.Some?)
      && (r.Ok? ==> r.value == c.(state := c.state.back,
                                  ecgData := c.ecgData[c.leadId.value := bytes.value],
                                  ecgLeads := c.ecgLeads + [c.leadId.value]))
      && (r.Ok? ==> r.value.ecgData[c.leadId.value] == bytes.value)
      && (r.Err? ==> r.error == if c.leadId.None? then NoLeadId else BadBase64(Text.Strip(c.state.text)))
  {
  }

  /** The end of LeadAmplitudeUnitsPerBit replaces the gain with float() of
      the stripped text whatever foundRhythm is, so the last value wins; it
      fails, naming the text, when the text is not a number. */
  lemma GainOverwrites(c: Context)
    requires c.state.Active? && c.state.elem == LeadAmplitudeUnitsPerBit
    ensures var r := EndStep(c, "LeadAmplitudeUnitsPerBit");
      var gain := Text.ParseReal(Text.Strip(c.state.text));
      (r.Ok? <==> gain.Some?)
      && (r.Ok? ==> r.value == c.(state := c.state.back, aduGain := gain.value))
      && (r.Err? ==> r.error == BadFloat(Text.Strip(c.state.text)))
  {
    var up, data := c.(state := c.state.back), Data(c.state);
    assert EndStep(c, "LeadAmplitudeUnitsPerBit") == Action(LeadAmplitudeUnitsPerBit, up, data);
    GainAction(up, data);
  }

  /** The LeadAmplitudeUnitsPerBit action, on any text. */
  lemma GainAction(up: Context, data: string)
    ensures var r := Action(LeadAmplitudeUnitsPerBit, up, data);
      (r.Ok? <==> Text.ParseReal(data).Some?)
      && (r.Ok? ==> r.value == up.(aduGain := Text.ParseReal(data).value))
      && (r.Err? ==> r.error == BadFloat(data))
  {
  }

  /** The end of LeadAmplitudeUnits replaces the units with the stripped text
      whatever foundRhythm is, so the last value wins. */
  lemma UnitsOverwrite(c: Context)
    requires c.state.Active? && c.state.elem == LeadAmplitudeUnits
    ensures EndStep(c, "LeadAmplitudeUnits") == Ok(c.(state := c.state.back, units := Text.Strip(c.state.text)))
  {
  }

  /** Every step keeps the chain of states well formed and the lead list in
      step with the buffers. */
  lemma StepPreserves(c: Context, ev: Event)
    requires WellFormed(c.state) && LeadsMatchData(c.ecgData, c.ecgLeads)
    ensures Step(c, ev).Ok? ==>
      WellFormed(Step(c, ev).value.state) && LeadsMatchData(Step(c, ev).value.ecgData, Step(c, ev).value.ecgLeads)
  {
    if ev.End? && c.state.Active? && ev.name == Tag(c.state.elem) {
      match c.state.elem
      case Waveform =>
      case LeadData =>
      case SampleBase =>
      case LeadAmplitudeUnitsPerBit =>
      case LeadAmplitudeUnits =>
      case WaveformType =>
      case LeadID =>
      case WaveFormData =>
        var r := EndStep(c, ev.name);
        if r.Ok? && c.foundRhythm {
          var id := c.leadId.value;
          assert r.value.ecgData == c.ecgData[id := Base64.Decode(Data(c.state)).value];
          assert r.value.ecgLeads == c.ecgLeads + [id];
        }
    }
  }

  /** A well-formed chain is at most Idle, Waveform, LeadData and a leaf. */
  lemma {:induction false} WellFormedDepth(s: State)
    requires WellFormed(s)
    ensures Depth(s) <= 3
    ensures s.Active? && s.elem == Waveform ==> Depth(s) == 1
    ensures s.Active? && s.elem in {WaveformType, SampleBase, LeadData} ==> Depth(s) == 2
  {
    if s.Active? {
      WellFormedDepth(s.back);
    }
  }

  // ---------------------------------------------------------------------
  // Properties of event sequences

  /** Run of a sequence is the run of its rest from the context after the first part. */
  lemma {:induction false} RunAppend(c: Context, a: seq<Event>, b: seq<Event>)
    ensures Run(c, a + b) == (match Run(c, a) case Err(e) => Err(e) case Ok(d) => Run(d, b))
    decreases |a|
  {
    if a == [] {
      assert a + b == b;
    } else {
      assert (a + b)[0] == a[0] && (a + b)[1..] == a[1..] + b;
      match Step(c, a[0])
      case Err(_) =>
      case Ok(next) => RunAppend(next, a[1..], b);
    }
  }

  /** Well-formedness and the lead/buffer match hold after any run. */
  lemma {:induction false} RunPreserves(c: Context, evs: seq<Event>)
    requires WellFormed(c.state) && LeadsMatchData(c.ecgData, c.ecgLeads)
    ensures Run(c, evs).Ok? ==>
      WellFormed(Run(c, evs).value.state) && LeadsMatchData(Run(c, evs).value.ecgData, Run(c, evs).value.ecgLeads)
    decreases |evs|
  {
    if evs != [] {
      StepPreserves(c, evs[0]);
      if Step(c, evs[0]).Ok? {
        RunPreserves(Step(c, evs[0]).value, evs[1..]);
      }
    }
  }

  /** Character events only, as expat delivers the text of a leaf element. */
  function Chars(texts: seq<string>): (evs: seq<Event>)
    ensures |evs| == |texts|
    ensures forall i :: 0 <= i < |evs| ==> evs[i] == CharData(texts[i])
  {
    if texts == [] then [] else [CharData(texts[0])] + Chars(texts[1..])
  }

  function Concat(texts: seq<string>): (r: string) {
    if texts == [] then "" else texts[0] + Concat(texts[1..])
  }

  /** A run of character events appends their concatenation to the current text. */
  lemma {:induction false} RunChars(c: Context, texts: seq<string>)
    ensures Run(c, Chars(texts)) == Ok(c.(state := c.state.(text := c.state.text + Concat(texts))))
    decreases |texts|
  {
    if texts == [] {
      assert c.state.text + "" == c.state.text;
    } else {
      var next := CharStep(c, texts[0]);
      assert Chars(texts)[1..] == Chars(texts[1..]);
      RunChars(next, texts[1..]);
      assert c.state.text + texts[0] + Concat(texts[1..]) == c.state.text + Concat(texts);
    }
  }

  /** A start tag that enters an element, its character data and its own end
      tag do what that element does at its end, on the concatenation of the
      character data, stripped, in the state that was current before with its
      text emptied (Idle keeps its text). */
  lemma StartCharsEndRestores(c: Context, name: string, texts: seq<string>)
    requires c.state.Idle? ==> name == Tag(Waveform)
    requires c.state.Active? ==> Child(c.state.elem, name).Some?
    ensures var evs := [Start(name)] + Chars(texts) + [End(name)];
      var elem := if c.state.Idle? then Waveform else Child(c.state.elem, name).value;
      var after := if c.state.Idle? then c.state else Cleared(c.state);
      Run(c, evs) == Action(elem, c.(state := after), Text.Strip(Concat(texts)))
    ensures var evs := [Start(name)] + Chars(texts) + [End(name)];
      Run(c, evs).Ok? ==>
        Run(c, evs).value.state == (if c.state.Idle? then c.state else Cleared(c.state))
  {
    var elem := if c.state.Idle? then Waveform else Child(c.state.elem, name).value;
    var after := if c.state.Idle? then c.state else Cleared(c.state);
    var filled := c.(state := Active(elem, Concat(texts), after));
    StartCharsRun(c, name, texts);
    RunAppend(c, [Start(name)] + Chars(texts), [End(name)]);
    assert Run(filled, [End(name)]) == EndStep(filled, name) by {
      match EndStep(filled, name)
      case Err(_) =>
      case Ok(_) =>
    }
    assert Tag(elem) == name;
    assert EndStep(filled, name) == Action(elem, c.(state := after), Data(filled.state));
    ActionKeepsState(elem, c.(state := after), Data(filled.state));
  }

  /** The start tag and the character data of such an element leave the
      element current, holding the concatenated text. */
  lemma StartCharsRun(c: Context, name: string, texts: seq<string>)
    requires c.state.Idle? ==> name == Tag(Waveform)
    requires c.state.Active? ==> Child(c.state.elem, name).Some?
    ensures var elem := if c.state.Idle? then Waveform else Child(c.state.elem, name).value;
      var after := if c.state.Idle? then c.state else Cleared(c.state);
      Run(c, [Start(name)] + Chars(texts)) == Ok(c.(state := Active(elem, Concat(texts), after)))
  {
    var entered := StartStep(c, name);
    RunChars(entered, texts);
    assert entered.state.text == "";
    assert "" + Concat(texts) == Concat(texts);
    RunAppend(c, [Start(name)], Chars(texts));
    assert Run(c, [Start(name)]) == Ok(entered);
  }

  /** The events of an element holding only character data. */
  function ElementEvents(name: string, texts: seq<string>): (evs: seq<Event>)
    ensures |evs| == |texts| + 2 && evs[0] == Start(name) && evs[|evs| - 1] == End(name)
  {
    [Start(name)] + Chars(texts) + [End(name)]
  }

  /** In a rhythm waveform's LeadData, whatever text LeadData has collected, a
      LeadID element names the current lead and empties that text. */
  lemma LeadIdInLeadData(c: Context, texts: seq<string>)
    requires c.foundRhythm && c.state.Active? && c.state.elem == LeadData
    ensures Run(c, ElementEvents("LeadID", texts))
      == Ok(c.(state := Cleared(c.state), leadId := Some(Text.Strip(Concat(texts)))))
  {
    var up, data := c.(state := Cleared(c.state)), Text.Strip(Concat(texts));
    assert Child(LeadData, "LeadID") == Some(LeadID);
    StartCharsEndRestores(c, "LeadID", texts);
    LeadIdAction(up, data);
  }

  /** Ending a LeadID in a rhythm waveform names the current lead. */
  lemma LeadIdAction(up: Context, data: string)
    requires up.foundRhythm
    ensures Action(LeadID, up, data) == Ok(up.(leadId := Some(data)))
  {
  }

  /** In a rhythm waveform's LeadData, once a lead is named, a WaveFormData
      element adds its decoded text as that lead's buffer and empties the text
      LeadData had collected. */
  lemma WaveFormDataInLeadData(c: Context, texts: seq<string>)
    requires c.foundRhythm && c.state.Active? && c.state.elem == LeadData
    requires c.leadId.Some?
    ensures Run(c, ElementEvents("WaveFormData", texts))
      == AddWaveformData(c.(state := Cleared(c.state)), Text.Strip(Concat(texts)))
  {
    var up, data := c.(state := Cleared(c.state)), Text.Strip(Concat(texts));
    assert Child(LeadData, "WaveFormData") == Some(WaveFormData);
    StartCharsEndRestores(c, "WaveFormData", texts);
    WaveFormDataAction(up, data);
  }

  /** Ending a WaveFormData in a rhythm waveform, once a lead is named, adds
      the buffer. */
  lemma WaveFormDataAction(up: Context, data: string)
    requires up.foundRhythm && up.leadId.Some?
    ensures Action(WaveFormData, up, data) == AddWaveformData(up, data)
  {
  }

  /** A LeadData start tag in Waveform enters LeadData over Waveform, emptied. */
  lemma EnterLeadData(c: Context)
    requires c.state.Active? && c.state.elem == Waveform
    ensures Run(c, [Start("LeadData")]) == Ok(c.(state := Active(LeadData, "", Cleared(c.state))))
  {
    assert Run(c, [Start("LeadData")]) == Run(StartStep(c, "LeadData"), []);
  }

  /** The LeadData end tag restores the state under LeadData, discarding
      whatever text LeadData collected, and does nothing else. */
  lemma LeaveLeadData(c: Context)
    requires c.state.Active? && c.state.elem == LeadData
    ensures Run(c, [End("LeadData")]) == Ok(c.(state := c.state.back))
  {
    assert Run(c, [End("LeadData")]) == EndStep(c, "LeadData");
  }

  /** Character data followed by more events runs the rest with the text appended. */
  lemma CharsThen(c: Context, w: seq<string>, evs: seq<Event>)
    ensures Run(c, Chars(w) + evs) == Run(c.(state := c.state.(text := c.state.text + Concat(w))), evs)
  {
    RunChars(c, w);
    RunAppend(c, Chars(w), evs);
  }

  /** The events of a LeadData holding a LeadID and then a WaveFormData, with
      the character data w0, w1 and w2 (the indentation of the document)
      around them. */
  function LeadDataEvents(w0: seq<string>, a: seq<string>, w1: seq<string>, b: seq<string>, w2: seq<string>): seq<Event>
  {
    [Start("LeadData")] + (Chars(w0) + (ElementEvents("LeadID", a) + (Chars(w1) + (ElementEvents("WaveFormData", b) + (Chars(w2) + [End("LeadData")])))))
  }

  /** In a rhythm waveform, a LeadData element holding a LeadID and then a
      WaveFormData, with any character data around them, records the lead:
      the buffer decoded from the stripped WaveFormData text is stored under
      the stripped LeadID text, which is appended to the lead list, and the
      Waveform state is current again with no text. It fails exactly when
      that text is not base64. */
  lemma LeadDataRecorded(c: Context, w0: seq<string>, a: seq<string>, w1: seq<string>, b: seq<string>, w2: seq<string>)
    requires c.foundRhythm && c.state.Active? && c.state.elem == Waveform
    ensures var id, data := Text.Strip(Concat(a)), Text.Strip(Concat(b));
      var r := Run(c, LeadDataEvents(w0, a, w1, b, w2));
      (r.Ok? <==> Base64.Decode(data).Some?)
      && (r.Ok? ==> r.value == c.(state := Cleared(c.state), leadId := Some(id),
                                  ecgData := c.ecgData[id := Base64.Decode(data).value],
                                  ecgLeads := c.ecgLeads + [id]))
      && (r.Err? ==> r.error == BadBase64(data))
  {
    var id, data := Text.Strip(Concat(a)), Text.Strip(Concat(b));
    var first, second, stop := ElementEvents("LeadID", a), ElementEvents("WaveFormData", b), [End("LeadData")];
    var inner := Active(LeadData, "", Cleared(c.state));
    var c1 := c.(state := inner);
    EnterLeadData(c);
    RunAppend(c, [Start("LeadData")], Chars(w0) + (first + (Chars(w1) + (second + (Chars(w2) + stop)))));
    var c1w := c1.(state := inner.(text := "" + Concat(w0)));
    CharsThen(c1, w0, first + (Chars(w1) + (second + (Chars(w2) + stop))));
    LeadIdInLeadData(c1w, a);
    RunAppend(c1w, first, Chars(w1) + (second + (Chars(w2) + stop)));
    var c2 := c1.(leadId := Some(id));
    assert c1w.(state := Cleared(c1w.state), leadId := Some(id)) == c2;
    var c2w := c2.(state := inner.(text := "" + Concat(w1)));
    CharsThen(c2, w1, second + (Chars(w2) + stop));
    WaveFormDataInLeadData(c2w, b);
    assert c2w.(state := Cleared(c2w.state)) == c2;
    RunAppend(c2w, second, Chars(w2) + stop);
    match Base64.Decode(data)
    case None =>
    case Some(bytes) =>
      var c3 := c2.(ecgData := c2.ecgData[id := bytes], ecgLeads := c2.ecgLeads + [id]);
      var c3w := c3.(state := inner.(text := "" + Concat(w2)));
      CharsThen(c3, w2, stop);
      LeaveLeadData(c3w);
  }

  /** One step outside a rhythm waveform, other than the end of WaveformType,
      leaves the lead data and the sample rate alone. */
  lemma NonRhythmStep(c: Context, ev: Event)
    requires !c.foundRhythm && ev != End("WaveformType")
    ensures Step(c, ev).Ok? ==>
      var d := Step(c, ev).value;
      !d.foundRhythm && d.sampleRate == c.sampleRate && d.leadId == c.leadId
      && d.ecgData == c.ecgData && d.ecgLeads == c.ecgLeads
  {
    if ev.End? && c.state.Active? && ev.name == Tag(c.state.elem) {
      match c.state.elem
      case Waveform =>
      case LeadData =>
      case SampleBase =>
      case LeadAmplitudeUnitsPerBit =>
      case LeadAmplitudeUnits =>
      case WaveformType =>
      case LeadID =>
      case WaveFormData =>
    }
  }

  /** While not in a rhythm waveform, no sequence of events without an end of
      WaveformType changes the sample rate, the current lead, the buffers or
      the lead list (and foundRhythm stays unset). */
  lemma {:induction false} NonRhythmRunKeepsLeads(c: Context, evs: seq<Event>)
    requires !c.foundRhythm
    requires forall i :: 0 <= i < |evs| ==> evs[i] != End("WaveformType")
    ensures Run(c, evs).Ok? ==>
      var d := Run(c, evs).value;
      !d.foundRhythm && d.sampleRate == c.sampleRate && d.leadId == c.leadId
      && d.ecgData == c.ecgData && d.ecgLeads == c.ecgLeads
    decreases |evs|
  {
    if evs != [] {
      match Step(c, evs[0])
      case Err(_) =>
      case Ok(next) =>
        NonRhythmStep(c, evs[0]);
        NonRhythmRunKeepsLeads(next, evs[1..]);
    }
  }

  // ---------------------------------------------------------------------
  // Properties of whole elements

  /** A document fragment: an element with its content, or character data. */
  datatype Tree = Node(name: string, kids: seq<Tree>) | Leaf(data: string)

  /** The events expat delivers for a fragment. */
  function Events(t: Tree): (evs: seq<Event>)
    decreases t
  {
    match t
    case Leaf(data) => [CharData(data)]
    case Node(name, kids) => [Start(name)] + EventsOf(kids) + [End(name)]
  }

  function EventsOf(ts: seq<Tree>): (r: seq<Event>)
    decreases ts
  {
    if ts == [] then [] else Events(ts[0]) + EventsOf(ts[1..])
  }

  /** The current element, None in Idle. */
  function Top(s: State): (r: Option<Element>) {
    if s.Idle? then None else Some(s.elem)
  }

  /** The current element inside a start tag named name seen at top. */
  function Inside(top: Option<Element>, name: string): (r: Option<Element>) {
    match top
    case None => if name == Tag(Waveform) then Some(Waveform) else None
    case Some(e) => if Child(e, name).Some? then Child(e, name) else Some(e)
  }

  /** A fragment that no state mistakes for its own end: an element that is
      not entered never carries the name of the element around it. */
  predicate Proper(t: Tree, top: Option<Element>)
    decreases t
  {
    match t
    case Leaf(_) => true
    case Node(name, kids) =>
      (top.Some? && Child(top.value, name).None? ==> name != Tag(top.value))
      && forall i :: 0 <= i < |kids| ==> Proper(kids[i], Inside(top, name))
  }

  /** A proper fragment leaves the state it started in as it was, up to its
      text; an element that is entered (or any element read in Idle) leaves
      it exactly as after its end tag, its text emptied (a Waveform read in
      Idle keeps Idle's text). */
  lemma {:induction false} TreeRestores(c: Context, t: Tree)
    requires Proper(t, Top(c.state))
    ensures Run(c, Events(t)).Ok? ==> Cleared(Run(c, Events(t)).value.state) == Cleared(c.state)
    ensures Run(c, Events(t)).Ok? && t.Node? && !(c.state.Active? && Child(c.state.elem, t.name).None?) ==>
      Run(c, Events(t)).value.state == (if c.state.Idle? && t.name == Tag(Waveform) then c.state else Cleared(c.state))
    decreases t
  {
    match t
    case Leaf(data) =>
      assert Run(c, Events(t)) == Run(CharStep(c, data), []);
    case Node(name, kids) =>
      var entered := StartStep(c, name);
      assert Top(entered.state) == Inside(Top(c.state), name);
      ForestRestores(entered, kids);
      NodeRun(c, name, kids);
      match Run(entered, EventsOf(kids))
      case Err(_) =>
      case Ok(d) =>
        if d.state.Idle? {
          assert EndStep(d, name) == Ok(d.(state := Cleared(d.state)));
        } else if Tag(d.state.elem) == name {
          MatchingEndRestores(d);
        } else {
          assert EndStep(d, name) == Ok(d);
        }
  }

  /** An element's events run as its start tag, then its content, then its end tag. */
  lemma NodeRun(c: Context, name: string, kids: seq<Tree>)
    ensures Run(c, Events(Node(name, kids))) ==
      match Run(StartStep(c, name), EventsOf(kids))
      case Err(e) => Err(e)
      case Ok(d) => EndStep(d, name)
  {
    var entered := StartStep(c, name);
    RunAppend(c, [Start(name)], EventsOf(kids) + [End(name)]);
    assert Events(Node(name, kids)) == [Start(name)] + (EventsOf(kids) + [End(name)]);
    assert Run(c, [Start(name)]) == Ok(entered);
    RunAppend(entered, EventsOf(kids), [End(name)]);
    match Run(entered, EventsOf(kids))
    case Err(_) =>
    case Ok(d) =>
      assert Run(d, [End(name)]) == EndStep(d, name) by {
        match EndStep(d, name)
        case Err(_) =>
        case Ok(_) =>
      }
  }

  /** A sequence of proper fragments leaves the state as it was, up to its text. */
  lemma {:induction false} ForestRestores(c: Context, ts: seq<Tree>)
    requires forall i :: 0 <= i < |ts| ==> Proper(ts[i], Top(c.state))
    ensures Run(c, EventsOf(ts)).Ok? ==> Cleared(Run(c, EventsOf(ts)).value.state) == Cleared(c.state)
    decreases ts
  {
    if ts != [] {
      TreeRestores(c, ts[0]);
      RunAppend(c, Events(ts[0]), EventsOf(ts[1..]));
      match Run(c, Events(ts[0]))
      case Err(_) =>
      case Ok(d) =>
        assert Top(d.state) == Top(c.state);
        ForestRestores(d, ts[1..]);
    }
  }
}
