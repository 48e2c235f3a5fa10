/** Option, Result and Outcome: the values the model returns where the program
    raises an exception or exits. */
module Wrappers {

  datatype Option<+T> = None | Some(value: T)

  datatype Result<+T, +E> = Ok(value: T) | Err(error: E)

  datatype Outcome<+E> = Pass | Fail(error: E)
}

/** The ways decoding one MUSE XML document can stop. In the program each one is
    a Python exception that escapes from the expat callbacks or from makeZcg, or
    a call of sys.exit; any of them ends the run with no output file. */
module Errors {

  datatype Error =
    | BadInteger(text: string)   // int() of the SampleBase text raises ValueError
    | BadFloat(text: string)     // float() of the LeadAmplitudeUnitsPerBit text raises ValueError
    | BadBase64(text: string)    // base64.b64decode of the WaveFormData text raises TypeError or UnicodeEncodeError
    | NoLeadId                   // WaveFormData ends before any LeadID was recorded (AttributeError)
    | NoLeads                    // makeZcg reads ecg_Leads[0] of an empty list (IndexError)
    | MissingLead(lead: string)  // makeZcg finds an independent lead missing (sys.exit(-1))
    | ShortBuffer                // makeZcg indexes past the end of a lead's buffer (IndexError)
}
