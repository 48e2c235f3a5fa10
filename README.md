# MUSE XML rhythm-strip extractor, modelled in Dafny

`musexmlex.py` reads a GE MUSE XML electrocardiogram export with expat,
collects the base64 sample buffers of the rhythm waveform's leads, interleaves
them into one sample buffer (`makeZcg`) and writes a CSV table with the twelve
standard leads and any extra recorded leads (`writeCSV`). This project models
three parts of it:

- the element state machine (`XmlElementParser` and its eight subclasses) and
  `MuseXmlParser`'s setters and its three expat handlers;
- `makeZcg`, the check that every independent lead is present and the
  interleaving of the little-endian 16-bit samples;
- the row and column logic of `writeCSV`: the header, the symmetric-difference
  extra leads, the samples dictionary, the derived limb leads, and gain
  scaling with truncation toward zero.

Layout:

- `wrappers.dfy`: modules `Wrappers` (Option, Result, Outcome) and `Errors`.
  `Errors` has one error per Python exception or `sys.exit` that ends a run.
- `text.dfy`: module `Text`, standing for `string.strip` (with the Python 2
  unicode whitespace set), `str.find`, `int()` and `float()` of a decimal
  literal.
- `bytes.dfy`: module `Bytes`, for `struct.unpack("h", ...)` of two bytes.
- `base64.dfy`: module `Base64`, for `base64.b64decode` (strict RFC 4648
  section 4 alphabet, padding as in section 3.2) and an encoder used as its
  inverse.
- `states.dfy`: module `States`. It holds the value model of the state chain
  and the parse context, one pure function per expat event, and the
  properties of single steps and of event sequences.
- `zcg.dfy`: module `Zcg`, the specification of `makeZcg`: which lead lists
  it rejects, and the interleaved buffer.
- `leads.dfy`: module `Leads`, the specification of `writeCSV`'s table.
- `parser.dfy`: module `MuseXml`. Its class `MuseXmlParser` has the Python
  object's fields. Its methods update those fields in place and are proved
  against the functions of `States`, `Zcg` and `Leads`.

The chain of parser states is a value: `Idle(text)` or
`Active(element, text, back)`, where `back` is the suspended enclosing state.
While a child is current, Python never changes its parent object, so using
values here is exact. An exception becomes an `Err`/`Fail` result. When an
end handler fails, `setState` has already restored the enclosing state. The
model keeps that restore and the rest of the context unchanged.

Notes where the docstrings, or a natural reading, differ from the code. The
model follows the code in each case:

- `addLeadId` replaces the current lead, it does not collect a list of them.
- An end tag that is not the current element's own is ignored.
- The gain (`LeadAmplitudeUnitsPerBit`) and the units are taken from every
  waveform, not only the rhythm one, so the last value in the document wins.
- The element text is cleared by a start tag, except in the Idle state. An end
  tag clears it only in the Idle state.
- A lead listed twice has its buffer replaced. It still appears twice in the
  lead list, so makeZcg interleaves the later buffer twice.
- At the end of WaveFormData the progress message reads the current lead
  before the text is decoded. So a missing LeadID is reported before a
  malformed buffer, although `addWaveformData` alone decodes first.
- An empty lead list fails in makeZcg with an IndexError before the
  missing-lead check runs.
- makeZcg's comment says all leads have the same number of samples, but the
  code does not check it. A buffer shorter than the first lead's fails with a
  read past its end. A longer one is accepted and cut to the first lead's
  length (`Zcg.LongerBufferTruncated`, `Zcg.InterleavedPrefix`). There is no separate error for
  different sample counts.

## Model

| member | source | states |
|---|---|---|
| States.CharDataAppends | musexmlex.py:74-76 | character data is appended to the current state's text and nothing else in the context changes |
| States.StartClears | musexmlex.py:101-108 | a start tag in any state but Idle empties that state's text; the state then either stays current or is suspended under a fresh, empty child; nothing else changes |
| States.IdleLeftOnlyByWaveform | musexmlex.py:79-90 | in Idle no event fails; the state machine leaves Idle exactly on a Waveform start tag, entering Waveform over Idle with Idle's text kept; any other event changes only Idle's text |
| States.MismatchedEndIgnored | musexmlex.py:110-112 | an end tag other than the current element's own leaves the whole context unchanged |
| States.ActionKeepsState | musexmlex.py:126-248 | no element's end action changes the state it is given, and only SampleBase, LeadAmplitudeUnitsPerBit and WaveFormData can fail |
| States.MatchingEndRestores | musexmlex.py:52-55 | the current element's own end tag always restores the enclosing state; it can fail only for SampleBase, LeadAmplitudeUnitsPerBit and WaveFormData |
| States.WaveformTypeClassifies | musexmlex.py:179-186 | the end of WaveformType never fails; it restores the parent and sets foundRhythm exactly when the stripped text contains "Rhythm"; nothing else changes |
| States.NonRhythmEndsOnlyRestore | musexmlex.py:126-130 | outside a rhythm waveform, the ends of SampleBase, LeadID and WaveFormData only restore the enclosing state |
| States.RhythmSampleBase | musexmlex.py:126-130 | in a rhythm waveform the end of SampleBase succeeds exactly when the stripped text is an integer literal; it then sets the rate to that integer and otherwise fails naming the text |
| States.SampleBaseAction | musexmlex.py:126-130 | in a rhythm waveform the SampleBase action on any text succeeds exactly when the text is an integer literal, then setting only the rate to it |
| States.RhythmLeadId | musexmlex.py:224-229 | in a rhythm waveform the end of LeadID sets the current lead to the stripped text and leaves the lead list as it is |
| States.RhythmWaveformData | musexmlex.py:243-248 | in a rhythm waveform the end of WaveFormData succeeds exactly when the text decodes and a lead is named; it stores the buffer under that lead and appends the lead to the list; it fails with NoLeadId when no lead is named, otherwise with BadBase64 naming the text |
| States.GainOverwrites | musexmlex.py:145-148 | whatever foundRhythm is, the end of LeadAmplitudeUnitsPerBit replaces the gain with float() of the text, or fails naming the text |
| States.GainAction | musexmlex.py:145-148 | the LeadAmplitudeUnitsPerBit action on any text succeeds exactly when float() accepts it, then setting only the gain |
| States.UnitsOverwrite | musexmlex.py:162-165 | whatever foundRhythm is, the end of LeadAmplitudeUnits replaces the units with the stripped text |
| States.StepPreserves | musexmlex.py:85-248 | every successful event keeps the state chain in a reachable shape and the lead list in step with the buffer map |
| States.WellFormedDepth | musexmlex.py:101-206 | a reachable chain has at most three suspended states above the current one: Idle, Waveform, LeadData |
| States.RunAppend | musexmlex.py:289-298 | feeding two event sequences one after the other equals feeding their concatenation; an error stops the run |
| States.RunPreserves | musexmlex.py:289-298 | the shape and the leads/buffers invariant hold after any successful run |
| States.RunChars | musexmlex.py:74-76 | a run of character events appends their concatenation to the current text |
| States.StartCharsEndRestores | musexmlex.py:48-64 | a start tag that is entered, its character data and its own end tag do exactly what the element does at its end, on the stripped concatenation of the character data, in the state that was current before with its text emptied (Idle keeps its text); on success that state is current again |
| States.StartCharsRun | musexmlex.py:74-108 | an entered start tag and character data leave the element current over the previous state, holding the concatenated text |
| States.LeadIdInLeadData | musexmlex.py:197-229 | in a rhythm waveform's LeadData, whatever text LeadData has collected, a LeadID element sets the current lead to its stripped text, empties LeadData's text and changes nothing else |
| States.LeadIdAction | musexmlex.py:224-229 | in a rhythm waveform the LeadID action on any text sets only the current lead to it |
| States.WaveFormDataInLeadData | musexmlex.py:197-248 | in a rhythm waveform's LeadData with a lead named, whatever text LeadData has collected, a WaveFormData element empties that text and does exactly addWaveformData of its own stripped text |
| States.WaveFormDataAction | musexmlex.py:243-248 | in a rhythm waveform with a lead named, the WaveFormData action on any text is exactly addWaveformData of it |
| States.EnterLeadData | musexmlex.py:101-108 | a LeadData start tag in Waveform enters LeadData over the Waveform state, with both texts empty |
| States.LeaveLeadData | musexmlex.py:208-211 | the LeadData end tag restores the enclosing state, whatever text LeadData collected, and changes nothing else |
| States.CharsThen | musexmlex.py:74-76 | character data followed by more events runs those events with the concatenated text appended to the current text |
| States.LeadDataRecorded | musexmlex.py:189-248 | in a rhythm waveform, a LeadData holding a LeadID and then a WaveFormData, with any character data before, between and after them, succeeds exactly when the data text is base64; it then stores the decoded buffer under the stripped lead name, appends the name to the lead list, and Waveform is current again with no text; otherwise it fails with BadBase64 naming the text |
| States.TreeRestores | musexmlex.py:48-248 | any element in which no unentered element carries its parent's name leaves the state it started in as it was, up to its text; an element that is entered, or one read in Idle, leaves exactly the state it started in with its text emptied (Idle keeps its text after a Waveform) |
| States.NodeRun | musexmlex.py:289-298 | an element's events run as its start tag, then its content, then its end tag, the first error ending the run |
| States.ForestRestores | musexmlex.py:48-248 | a sequence of such elements and character data leaves the state as it was, up to its text |
| States.NonRhythmRunKeepsLeads | musexmlex.py:126-248 | outside a rhythm waveform, no run without a WaveformType end changes the rate, the current lead, the buffers or the lead list |
| Text.Strip | musexmlex.py:61-64 | the stripped text neither starts nor ends with whitespace |
| Text.StripUnique | musexmlex.py:61-64 | stripping whitespace surrounding a trimmed text gives back exactly that text |
| Text.StripIdempotent | musexmlex.py:145-148 | stripping twice is stripping once, so float(strip(getData())) is float of getData() |
| Text.Find | musexmlex.py:182 | a result other than -1 is an index where the word occurs in the text |
| Text.FindFirst | musexmlex.py:182 | find gives -1 exactly when the text does not contain the word, and otherwise no lower index holds it |
| Text.ParseInt | musexmlex.py:269-271 | a sign directly followed by decimal digits, or digits alone, is read as the integer they denote |
| Text.ParseIntFormat | musexmlex.py:269-271 | every integer's decimal form is parsed back to that integer |
| Text.SpaceAfterSign | musexmlex.py:269-271 | as in Python 2's int(), whitespace between the sign and the digits is skipped: "- 5" is -5 |
| Text.ParseRealOfInt | musexmlex.py:145-148 | float() of an integer literal without a space after its sign is that integer, and int() agrees |
| Text.MantissaOfDecimal | musexmlex.py:145-148 | digits, a point and digits (not both runs empty) are a mantissa worth the integer part plus the fraction digits read as tenths, hundredths and so on, a value below the integer part plus one |
| Text.ParseRealDecimal | musexmlex.py:145-148 | float() of such a decimal fraction, with or without a minus sign, is its value or its negation |
| Text.ParseRealExponent | musexmlex.py:145-148 | float() of a mantissa, 'e' and a signed exponent is the mantissa's value shifted by the exponent in decimal places |
| Text.ShiftUp | musexmlex.py:145-148 | a shift by a non-negative exponent multiplies by ten to that exponent |
| Text.ParseGain | musexmlex.py:145-148 | the text "2.5" is read as 2.5 |
| Base64.Decode | musexmlex.py:285-287 | decoding fails on any text with a character beyond ASCII |
| Base64.DecodeDiscards | musexmlex.py:285-287 | on ASCII text, dropping every character outside the alphabet and the pad does not change the result |
| Base64.DecodeEncode | musexmlex.py:285-287 | decoding the base64 encoding of any byte string gives back that byte string |
| Bytes.Int16LE | musexmlex.py:316-318 | a sample is the signed 16-bit value of the low byte and the high byte: in range, and equal to lo + 256·hi modulo 65536 |
| Bytes.Int16RoundTrip | musexmlex.py:316-318 | every 16-bit sample is read back from its two little-endian bytes |
| Bytes.Int16BufferAt | musexmlex.py:314-319 | sample t of a buffer of encoded samples is the t-th value |
| Zcg.Failure | musexmlex.py:300-319 | makeZcg rejects an empty list first, then a missing independent lead, then an odd length or a short buffer; it succeeds exactly when the list is not empty, every independent lead is listed and every buffer holds at least the first buffer's even length n |
| Zcg.MissingLeadReported | musexmlex.py:308-311 | a non-empty lead list is rejected for a missing lead exactly when some independent lead is absent, and the first absent one in order is named |
| Zcg.MissingV3 | musexmlex.py:308-311 | a strip without V3 is rejected naming V3 |
| Zcg.ShorterBufferRejected | musexmlex.py:304-319 | once every independent lead is listed, any listed buffer shorter than the first lead's is rejected as a read past its end |
| Zcg.OddBufferRejected | musexmlex.py:304-319 | once every independent lead is listed, a first buffer of odd length is rejected as a read past its end |
| Zcg.LongerBufferTruncated | musexmlex.py:302-319 | when every independent lead is listed, the first buffer has an even length n and no buffer is shorter, makeZcg succeeds and interleaves exactly n/2 samples of every lead, however long the other buffers are |
| Zcg.InterleavedPrefix | musexmlex.py:314-319 | the first m timesteps depend only on the first 2m bytes of each buffer, so the bytes of a longer buffer past the first lead's length are never read |
| Zcg.InterleavedAt | musexmlex.py:314-319 | the buffer holds m·L samples, and entry t·L + k is sample t of the k-th listed lead |
| Leads.Select | musexmlex.py:346-348 | the selection keeps only listed leads that lie in the set, and every listed lead in the set appears in it |
| Leads.SelectOne | musexmlex.py:346-348 | a one-lead list keeps its lead exactly when it lies in the set |
| Leads.SelectAppend | musexmlex.py:346-348 | selecting from a + b is selecting from a followed by selecting from b, so list order and repetitions are kept |
| Leads.SelectCounts | musexmlex.py:346-348 | each lead occurs in the selection as often as in the list when it lies in the set, and not at all otherwise |
| Leads.ExtraLeadsAre | musexmlex.py:338 | an extra column is a recorded lead outside the independent leads, and every such lead gets one |
| Leads.TruncTowardZero | musexmlex.py:363-383 | int() of a float drops the fraction toward zero and is odd |
| Leads.AssignAt | musexmlex.py:357-360 | after the fill, a lead listed twice holds the value of its last position; other keys are untouched |
| Leads.AssignOverwrites | musexmlex.py:352-360 | once every key of the dictionary is a lead, a row's fill removes every trace of the previous row |
| Leads.RowSamples | musexmlex.py:357-360 | the row's dictionary has exactly the listed leads as keys, including every independent lead |
| Leads.ZcgReadyForCsv | musexmlex.py:300-360 | when makeZcg succeeds, every independent lead is recorded and the buffer holds whole rows, as writeCSV needs |
| Leads.ColumnsMatchHeader | musexmlex.py:324-387 | a row has one column per header name, and each column written for a recorded lead holds that lead's sample |
| Leads.EinthovenGoldberger | musexmlex.py:365-375 | the derived limb leads satisfy I + III = II and Goldberger's aVR = -(I + II)/2, aVL = (I - III)/2 and aVF = (II + III)/2, so aVR + aVL + aVF = 0, before scaling |
| Leads.GainExample | musexmlex.py:362-366 | with I = 100, II = 50 and gain 2.5 the first three columns are 250, 125 and -125 |
| Leads.DecodedRow | musexmlex.py:314-360 | in row r of the interleaved buffer every recorded lead holds its own sample r, even a lead listed twice |
| Leads.TableSnoc | musexmlex.py:354-389 | the row of the next timestep extends the table by exactly one row |
| MuseXml.MuseXmlParser.constructor | musexmlex.py:254-261 | the parser starts Idle with no text, no rhythm, rate 0, gain 1, no units, no lead, no buffers and an empty sample buffer |
| MuseXml.MuseXmlParser.SetState | musexmlex.py:263-264 | only the current state changes, to the given one |
| MuseXml.MuseXmlParser.SetSampleBase | musexmlex.py:269-271 | the rate changes only in a rhythm waveform, to int() of the text; a text that is not an integer fails and leaves the rate |
| MuseXml.MuseXmlParser.SetAdu | musexmlex.py:273-274 | only the gain changes, to the given one |
| MuseXml.MuseXmlParser.SetUnits | musexmlex.py:276-277 | only the units change, to the given ones |
| MuseXml.MuseXmlParser.SetRhythmFound | musexmlex.py:279-280 | only foundRhythm changes, to the given value |
| MuseXml.MuseXmlParser.AddLeadId | musexmlex.py:282-283 | the current lead is replaced, not appended |
| MuseXml.MuseXmlParser.AddWaveformData | musexmlex.py:285-287 | the new fields are the pure AddWaveformData of the old context; on an error nothing changes |
| MuseXml.MuseXmlParser.StartElement | musexmlex.py:289-292 | the new context is StartStep of the old one, and the shape invariant is kept |
| MuseXml.MuseXmlParser.CharData | musexmlex.py:297-298 | the new context is CharStep of the old one, and the shape invariant is kept |
| MuseXml.MuseXmlParser.SampleBaseEnd | musexmlex.py:126-130 | the fields follow the SampleBase end action of the pure model |
| MuseXml.MuseXmlParser.UnitsPerBitEnd | musexmlex.py:145-148 | the fields follow the LeadAmplitudeUnitsPerBit end action of the pure model |
| MuseXml.MuseXmlParser.UnitsEnd | musexmlex.py:162-165 | the fields follow the LeadAmplitudeUnits end action of the pure model |
| MuseXml.MuseXmlParser.WaveformTypeEnd | musexmlex.py:179-186 | the fields follow the WaveformType end action of the pure model |
| MuseXml.MuseXmlParser.LeadIdEnd | musexmlex.py:224-229 | the fields follow the LeadID end action of the pure model |
| MuseXml.MuseXmlParser.WaveformDataEnd | musexmlex.py:243-248 | the fields follow the WaveFormData end action of the pure model |
| MuseXml.MuseXmlParser.Act | musexmlex.py:110-248 | the fields follow the end action of the given element |
| MuseXml.MuseXmlParser.EndElement | musexmlex.py:294-295 | the new context is EndStep of the old one; on an error the enclosing state has been restored and nothing else has changed |
| MuseXml.MuseXmlParser.Feed | musexmlex.py:289-298 | feeding the events one by one gives the context of the pure Run, and its first error |
| MuseXml.MuseXmlParser.AppendSamples | musexmlex.py:315-319 | one pass appends sample t/2 of every lead, and succeeds exactly when every buffer has t + 2 bytes |
| MuseXml.MuseXmlParser.FirstMissing | musexmlex.py:308-311 | the loop stops at the first independent lead missing from the list |
| MuseXml.MuseXmlParser.AppendAll | musexmlex.py:314-319 | the sample loop succeeds exactly when n is even and every buffer holds n bytes, and then leaves the interleaving of n/2 timesteps |
| MuseXml.MuseXmlParser.MakeZcg | musexmlex.py:300-319 | makeZcg fails exactly as Failure says; on success the buffer is the interleaving of all leads; a missing lead empties it |
| MuseXml.MuseXmlParser.CsvHeader | musexmlex.py:324-350 | the header is the twelve standard names, then the extra leads in list order |
| MuseXml.MuseXmlParser.FillSamples | musexmlex.py:357-360 | whatever dictionary the previous row left, the fill gives the samples of the row at offset i |
| MuseXml.MuseXmlParser.Fill | musexmlex.py:357-360 | the loop leaves the dictionary with every lead set to its value, in list order |
| MuseXml.MuseXmlParser.CsvRow | musexmlex.py:362-387 | the row is every column of the samples times the gain, truncated toward zero |
| MuseXml.MuseXmlParser.CsvTable | musexmlex.py:320-389 | the header is Header and there is one row per timestep, row r being that of the samples of timestep r |

## Left out

- The command line, option parsing, file names and the `main` driver are out, because they are I/O.
- The expat object, its wiring to the handlers and the file read are out; the model takes the sequence of expat events as input.
- `get_data.py` is not part of this model.
- The element attributes are ignored by every state in the source, so the events carry none.
- The `print` messages are out, and so is the `%d, ` text formatting of `writeCSV`; the table is returned as strings and integers.
- The abstract `start_element`/`end_element` of the base class are out. They call `sys.exit(0)`, but every state overrides both, so they are never reached.
- Python 2 `float` is modelled as an exact real. IEEE rounding, infinities, NaN and the `inf`/`nan` spellings of `float()` are not modelled.
- Python's `int()` also takes unicode digits from other scripts, and its `float()` takes some other spellings. The model accepts ASCII digits only.
- `Base64.Decode`: Python 2 first encodes the unicode text as ASCII, so any character beyond ASCII raises a UnicodeEncodeError; the model fails the same way, with `BadBase64`. Python's `a2b_base64` then discards the other characters outside the alphabet, and so does the model. Python also stops at the first complete padded group and tolerates some misplaced padding; the model accepts only correctly padded input.
- `Bytes.Int16LE`: `struct.unpack("h")` uses the native byte order. The model fixes it to little endian, as the MUSE format and common hosts have it.
- `MuseXml.MuseXmlParser.constructor`: `zcg` starts as the empty sequence, while in Python the attribute does not exist until makeZcg runs.
- `MuseXml.MuseXmlParser.constructor`: likewise `leadId` starts as `None`, while in Python it is undefined until a LeadID is read. Reading it then raises an AttributeError, which the model reports as `NoLeadId`.
- `Text.ParseInt`: `int()` and `float()` strip surrounding whitespace themselves. The model's parsers and `MuseXml.MuseXmlParser.SetSampleBase` take the text that `getData` already stripped. On that text the two agree (`Text.StripIdempotent`).
- `MuseXml.MuseXmlParser.MakeZcg`: on a short buffer the contract states only the error. The samples appended before the failing read are not described.
- `MuseXml.MuseXmlParser.CsvTable`: requires what a successful makeZcg guarantees (`Leads.ZcgReadyForCsv`). These are all independent leads recorded and a whole number of rows. The only caller runs it after makeZcg. The KeyError or IndexError that writeCSV would raise otherwise is not modelled.
- `Text.Strip`: its own contract states only that the result is trimmed. `Text.StripUnique` states which text that is.
