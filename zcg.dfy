/** The sample decoder's specification (makeZcg): which documents it rejects,
    and the interleaved sample sequence it builds from the lead buffers. */
module Zcg {
  import opened Wrappers
  import opened Errors
  import opened Bytes

  /** The leads every rhythm strip must record (INDEPENDENT_LEADS), in order. */
  const IndependentLeads: seq<string> := ["I", "II", "V1", "V2", "V3", "V4", "V5", "V6"]

  /** The position in required of the first lead missing from leads, or
      |required| when none is missing. */
  function Missing(leads: seq<string>, required: seq<string>): (j: nat)
    ensures j <= |required|
    ensures forall i :: 0 <= i < j ==> required[i] in leads
    ensures j < |required| ==> required[j] !in leads
  {
    if required == [] then 0
    else if required[0] !in leads then 0
    else 1 + Missing(leads, required[1..])
  }

  /** Every lead has a buffer of at least n bytes. */
  ghost predicate Covers(data: map<string, seq<Byte>>, leads: seq<string>, n: nat) {
    forall k :: 0 <= k < |leads| ==> leads[k] in data && |data[leads[k]]| >= n
  }

  /** Sample t of a buffer: bytes 2t and 2t+1 as a signed 16-bit value. */
  function SampleAt(buf: seq<Byte>, t: nat): (r: int)
    requires 2 * t + 1 < |buf|
  {
    Int16LE(buf[2 * t], buf[2 * t + 1])
  }

  /** Sample t of every lead, in lead-list order. */
  function Timestep(data: map<string, seq<Byte>>, leads: seq<string>, t: nat): (r: seq<int>)
    requires Covers(data, leads, 2 * t + 2)
    ensures |r| == |leads|
  {
    seq(|leads|, k requires 0 <= k < |leads| => SampleAt(data[leads[k]], t))
  }

  /** The first m timesteps, one after the other. */
  function Interleaved(data: map<string, seq<Byte>>, leads: seq<string>, m: nat): (r: seq<int>)
    requires Covers(data, leads, 2 * m)
  {
    if m == 0 then [] else Interleaved(data, leads, m - 1) + Timestep(data, leads, m - 1)
  }

  /** Entry t·L + k of the interleaving is sample t of lead k. */
  lemma {:induction false} InterleavedAt(data: map<string, seq<Byte>>, leads: seq<string>, m: nat, t: nat, k: nat)
    requires Covers(data, leads, 2 * m)
    requires t < m && k < |leads|
    ensures |Interleaved(data, leads, m)| == m * |leads|
    ensures t * |leads| + k < m * |leads|
    ensures Interleaved(data, leads, m)[t * |leads| + k] == SampleAt(data[leads[k]], t)
  {
    InterleavedLength(data, leads, m);
    var L := |leads|;
    if t == m - 1 {
      InterleavedLength(data, leads, m - 1);
      assert (m - 1) * L + k < m * L;
    } else {
      InterleavedAt(data, leads, m - 1, t, k);
      assert (m - 1) * L <= m * L;
    }
  }

  lemma {:induction false} InterleavedLength(data: map<string, seq<Byte>>, leads: seq<string>, m: nat)
    requires Covers(data, leads, 2 * m)
    ensures |Interleaved(data, leads, m)| == m * |leads|
  {
    if m > 0 {
      InterleavedLength(data, leads, m - 1);
    }
  }

  /** The error makeZcg stops with, or None. The first lead's buffer length n
      is read before anything else, so an empty lead list is an IndexError even
      though it also misses every independent lead; then every independent lead
      must be present; then the loop over t = 0, 2, .. < n reads bytes t and
      t+1 of every buffer, which fails when n is odd or a buffer is shorter than n.
      A buffer longer than n is accepted and only its first n bytes are read. */
  function Failure(data: map<string, seq<Byte>>, leads: seq<string>): (r: Option<Error>)
    requires forall k :: 0 <= k < |leads| ==> leads[k] in data
    ensures r.None? <==>
      (&& |leads| > 0 && |data[leads[0]]| % 2 == 0 && Covers(data, leads, |data[leads[0]]|)
       && forall j :: 0 <= j < |IndependentLeads| ==> IndependentLeads[j] in leads)
  {
    if |leads| == 0 then Some(NoLeads)
    else if Missing(leads, IndependentLeads) < |IndependentLeads| then
      Some(MissingLead(IndependentLeads[Missing(leads, IndependentLeads)]))
    else
      var n := |data[leads[0]]|;
      if n % 2 == 1 || exists k :: 0 <= k < |leads| && |data[leads[k]]| < n then Some(ShortBuffer)
      else None
  }

  /** makeZcg reports a missing lead exactly when the lead list is not empty and
      some independent lead is absent, and then it names the first absent one. */
  lemma MissingLeadReported(data: map<string, seq<Byte>>, leads: seq<string>)
    requires forall k :: 0 <= k < |leads| ==> leads[k] in data
    requires |leads| > 0
    ensures (Failure(data, leads).Some? && Failure(data, leads).value.MissingLead?)
      <==> exists j :: 0 <= j < |IndependentLeads| && IndependentLeads[j] !in leads
    ensures Failure(data, leads).Some? && Failure(data, leads).value.MissingLead? ==>
      exists j :: 0 <= j < |IndependentLeads| && IndependentLeads[j] == Failure(data, leads).value.lead
        && IndependentLeads[j] !in leads
        && forall i :: 0 <= i < j ==> IndependentLeads[i] in leads
  {
    var j := Missing(leads, IndependentLeads);
    if j < |IndependentLeads| {
      assert IndependentLeads[j] !in leads;
    }
  }

  /** A rhythm strip without V3 is rejected naming V3. */
  lemma MissingV3(data: map<string, seq<Byte>>)
    requires forall l :: l in ["I", "II", "V1", "V2", "V4", "V5", "V6"] ==> l in data
    ensures Failure(data, ["I", "II", "V1", "V2", "V4", "V5", "V6"]) == Some(MissingLead("V3"))
  {
    var leads := ["I", "II", "V1", "V2", "V4", "V5", "V6"];
    assert "V3" !in leads;
    assert Missing(leads, IndependentLeads) == 4 by {
      assert IndependentLeads[..4] == ["I", "II", "V1", "V2"];
      assert IndependentLeads[4] == "V3";
    }
  }

  /** Once every independent lead is present, any buffer shorter than the
      first lead's is rejected: the loop reads past its end. */
  lemma ShorterBufferRejected(data: map<string, seq<Byte>>, leads: seq<string>, k: nat)
    requires forall i :: 0 <= i < |leads| ==> leads[i] in data
    requires k < |leads| && |data[leads[k]]| < |data[leads[0]]|
    requires forall j :: 0 <= j < |IndependentLeads| ==> IndependentLeads[j] in leads
    ensures Failure(data, leads) == Some(ShortBuffer)
  {
    assert Missing(leads, IndependentLeads) == |IndependentLeads|;
  }

  /** Once every independent lead is present, a first buffer of odd length is
      rejected: the last pair starts at its final byte. */
  lemma OddBufferRejected(data: map<string, seq<Byte>>, leads: seq<string>)
    requires forall i :: 0 <= i < |leads| ==> leads[i] in data
    requires |leads| > 0 && |data[leads[0]]| % 2 == 1
    requires forall j :: 0 <= j < |IndependentLeads| ==> IndependentLeads[j] in leads
    ensures Failure(data, leads) == Some(ShortBuffer)
  {
    assert Missing(leads, IndependentLeads) == |IndependentLeads|;
  }

  /** Buffers of unequal length are not always rejected: when the first
      buffer has an even length n and no buffer is shorter, the decoder
      succeeds and reads n / 2 samples of every lead, so the bytes of a
      longer buffer past n are dropped. */
  lemma LongerBufferTruncated(data: map<string, seq<Byte>>, leads: seq<string>)
    requires |leads| > 0 && leads[0] in data
    requires |data[leads[0]]| % 2 == 0 && Covers(data, leads, |data[leads[0]]|)
    requires forall j :: 0 <= j < |IndependentLeads| ==> IndependentLeads[j] in leads
    ensures Failure(data, leads) == None
    ensures |Interleaved(data, leads, |data[leads[0]]| / 2)| == |data[leads[0]]| / 2 * |leads|
  {
    InterleavedLength(data, leads, |data[leads[0]]| / 2);
  }

  /** Only the first 2m bytes of each buffer matter: buffers that agree on
      them give the same first m timesteps. */
  lemma {:induction false} InterleavedPrefix(data: map<string, seq<Byte>>, other: map<string, seq<Byte>>, leads: seq<string>, m: nat)
    requires Covers(data, leads, 2 * m) && Covers(other, leads, 2 * m)
    requires forall k :: 0 <= k < |leads| ==> data[leads[k]][..2 * m] == other[leads[k]][..2 * m]
    ensures Interleaved(data, leads, m) == Interleaved(other, leads, m)
  {
    if m > 0 {
      InterleavedPrefix(data, other, leads, m - 1) by {
        forall k | 0 <= k < |leads| ensures data[leads[k]][..2 * (m - 1)] == other[leads[k]][..2 * (m - 1)] {
          assert data[leads[k]][..2 * (m - 1)] == data[leads[k]][..2 * m][..2 * (m - 1)];
          assert other[leads[k]][..2 * (m - 1)] == other[leads[k]][..2 * m][..2 * (m - 1)];
        }
      }
      forall k | 0 <= k < |leads|
        ensures SampleAt(data[leads[k]], m - 1) == SampleAt(other[leads[k]], m - 1)
      {
        assert data[leads[k]][2 * m - 2] == data[leads[k]][..2 * m][2 * m - 2];
        assert data[leads[k]][2 * m - 1] == data[leads[k]][..2 * m][2 * m - 1];
      }
      assert Timestep(data, leads, m - 1) == Timestep(other, leads, m - 1);
    }
  }
}
