/** The row builder of writeCSV: the column header, the derived limb leads
    (Einthoven and Goldberger relations), gain scaling with truncation, and
    the samples dictionary filled from one row of the interleaved buffer. */
module Leads {
  import opened Bytes
  import opened Zcg

  /** The twelve standard columns, in output order. */
  const CanonicalLeads: seq<string> := ["I", "II", "III", "aVR", "aVL", "aVF", "V1", "V2", "V3", "V4", "V5", "V6"]

  /** extra_Leads: the symmetric difference of the independent leads and the
      recorded ones, as a set. */
  function ExtraSet(leads: seq<string>): (r: set<string>) {
    var std := set l | l in IndependentLeads;
    var have := set l | l in leads;
    (std - have) + (have - std)
  }

  /** The leads of the list that lie in keep, in list order, repeats kept. */
  function Select(leads: seq<string>, keep: set<string>): (r: seq<string>)
    ensures |r| <= |leads|
    ensures forall i :: 0 <= i < |r| ==> r[i] in keep && r[i] in leads
    ensures forall l :: l in leads && l in keep ==> l in r
  {
    if leads == [] then []
    else
      var last := leads[|leads| - 1];
      assert forall l :: l in leads ==> l in leads[..|leads| - 1] || l == last;
      Select(leads[..|leads| - 1], keep) + (if last in keep then [last] else [])
  }

  /** The extra columns: the recorded leads in the symmetric difference, in
      the order the document gave them. */
  function ExtraLeads(leads: seq<string>): (r: seq<string>) {
    Select(leads, ExtraSet(leads))
  }

  /** The extra columns are exactly the recorded leads that are not independent
      leads (an independent lead the document lacks is in the symmetric
      difference but produces no column). */
  lemma ExtraLeadsAre(leads: seq<string>, l: string)
    ensures l in ExtraLeads(leads) <==> l in leads && l !in IndependentLeads
  {
  }

  /** The header row: the twelve standard names, then the extra leads. */
  function Header(leads: seq<string>): (r: seq<string>) {
    CanonicalLeads + ExtraLeads(leads)
  }

  /** Python's int() of a float: truncation toward zero. */
  function Trunc(x: real): (r: int)
    decreases if x < 0.0 then 1 else 0
  {
    if x < 0.0 then -Trunc(-x) else x.Floor
  }

  /** Trunc drops the fraction of x, toward zero: the result is an integer
      between 0 and x less than a unit away from x. */
  lemma TruncTowardZero(x: real)
    ensures 0.0 <= x ==> Trunc(x) as real <= x < Trunc(x) as real + 1.0
    ensures x < 0.0 ==> Trunc(x) as real - 1.0 < x <= Trunc(x) as real
    ensures Trunc(-x) == -Trunc(x)
  {
  }

  /** One output value: int(sample * gain). */
  function Scale(x: real, gain: real): (r: int) {
    Trunc(x * gain)
  }

  /** The samples dictionary after samples[leads[j]] = vals[j] for each j in
      order, starting from m. */
  function Assign(m: map<string, real>, leads: seq<string>, vals: seq<int>): (r: map<string, real>)
    requires |vals| == |leads|
    ensures forall l :: l in r <==> l in m || l in leads
  {
    if leads == [] then m
    else
      var n := |leads| - 1;
      assert forall l :: l in leads ==> l in leads[..n] || l == leads[n];
      Assign(m, leads[..n], vals[..n])[leads[n] := vals[n] as real]
  }

  /** One more assignment: the dictionary of the first k + 1 leads is that of
      the first k, with lead k set to value k. */
  lemma AssignSnoc(m: map<string, real>, leads: seq<string>, vals: seq<int>, k: nat)
    requires |vals| == |leads| && k < |leads|
    ensures Assign(m, leads[..k + 1], vals[..k + 1]) == Assign(m, leads[..k], vals[..k])[leads[k] := vals[k] as real]
  {
    assert leads[..k + 1][..k] == leads[..k];
    assert vals[..k + 1][..k] == vals[..k];
  }

  /** The last position of l in leads. */
  function LastIndex(leads: seq<string>, l: string): (k: nat)
    requires l in leads
    ensures k < |leads| && leads[k] == l
    ensures forall j :: k < j < |leads| ==> leads[j] != l
  {
    if leads[|leads| - 1] == l then |leads| - 1
    else
      assert l in leads[..|leads| - 1];
      LastIndex(leads[..|leads| - 1], l)
  }

  /** A recorded lead maps to the value at its last position: duplicates are
      overwritten, last write wins; other keys keep their old value. */
  lemma {:induction false} AssignAt(m: map<string, real>, leads: seq<string>, vals: seq<int>, l: string)
    requires |vals| == |leads|
    requires l in leads || l in m
    ensures l in leads ==> Assign(m, leads, vals)[l] == vals[LastIndex(leads, l)] as real
    ensures l !in leads ==> Assign(m, leads, vals)[l] == m[l]
  {
    if leads != [] {
      var n := |leads| - 1;
      if leads[n] != l {
        assert l in leads <==> l in leads[..n];
        AssignAt(m, leads[..n], vals[..n], l);
      }
    }
  }

  /** Once every key of m is among the leads, each row overwrites all of them,
      so the dictionary left from the previous row does not matter. */
  lemma AssignOverwrites(m: map<string, real>, leads: seq<string>, vals: seq<int>)
    requires |vals| == |leads|
    requires forall l :: l in m ==> l in leads
    ensures Assign(m, leads, vals) == Assign(map[], leads, vals)
  {
    var a := Assign(m, leads, vals);
    var b := Assign(map[], leads, vals);
    forall l | l in a ensures l in b && a[l] == b[l] {
      AssignAt(m, leads, vals, l);
      AssignAt(map[], leads, vals, l);
    }
  }

  /** The samples dictionary for the row of the flat buffer that starts at
      offset i: its L values in lead-list order. */
  function RowSamples(zcg: seq<int>, leads: seq<string>, i: nat): (s: map<string, real>)
    requires i + |leads| <= |zcg|
    ensures forall l :: l in s <==> l in leads
    ensures RecordsIndependent(leads) ==> HasIndependent(s)
  {
    Assign(map[], leads, zcg[i..i + |leads|])
  }

  /** Every independent lead has a sample in s. */
  predicate HasIndependent(s: map<string, real>) {
    "I" in s && "II" in s && "V1" in s && "V2" in s && "V3" in s && "V4" in s && "V5" in s && "V6" in s
  }

  /** Every independent lead is recorded. */
  predicate RecordsIndependent(leads: seq<string>) {
    "I" in leads && "II" in leads && "V1" in leads && "V2" in leads
    && "V3" in leads && "V4" in leads && "V5" in leads && "V6" in leads
  }

  /** When makeZcg succeeds, writeCSV's demands hold: every independent lead
      is recorded and the buffer holds whole rows. */
  lemma ZcgReadyForCsv(data: map<string, seq<Byte>>, leads: seq<string>)
    requires forall k :: 0 <= k < |leads| ==> leads[k] in data
    requires Failure(data, leads).None?
    ensures |leads| > 0 && Covers(data, leads, |data[leads[0]]|)
    ensures RecordsIndependent(leads)
    ensures |Interleaved(data, leads, |data[leads[0]]| / 2)| % |leads| == 0
  {
    assert Missing(leads, IndependentLeads) == |IndependentLeads|;
    RecordsAll(leads);
    var m := |data[leads[0]]| / 2;
    InterleavedLength(data, leads, m);
    ModMul(m, |leads|);
  }

  lemma RecordsAll(leads: seq<string>)
    requires forall i :: 0 <= i < |IndependentLeads| ==> IndependentLeads[i] in leads
    ensures RecordsIndependent(leads)
  {
    assert IndependentLeads[0] in leads && IndependentLeads[1] in leads;
    assert IndependentLeads[2] in leads && IndependentLeads[3] in leads;
    assert IndependentLeads[4] in leads && IndependentLeads[5] in leads;
    assert IndependentLeads[6] in leads && IndependentLeads[7] in leads;
  }

  /** The twelve standard columns before scaling: I, II, III = II - I,
      aVR = -(I + II)/2, aVL = I - II/2, aVF = II - I/2, V1..V6. */
  function Derived(s: map<string, real>): (d: seq<real>)
    requires HasIndependent(s)
    ensures |d| == 12
  {
    var i, ii := s["I"], s["II"];
    [i, ii, ii - i, -(i + ii) / 2.0, i - ii / 2.0, ii - i / 2.0,
     s["V1"], s["V2"], s["V3"], s["V4"], s["V5"], s["V6"]]
  }

  /** The samples of the leads xs, in order. */
  function Values(s: map<string, real>, xs: seq<string>): (v: seq<real>)
    requires forall i :: 0 <= i < |xs| ==> xs[i] in s
    ensures |v| == |xs| && forall j :: 0 <= j < |xs| ==> v[j] == s[xs[j]]
  {
    if xs == [] then [] else Values(s, xs[..|xs| - 1]) + [s[xs[|xs| - 1]]]
  }

  /** Each value times the gain, truncated toward zero. */
  function Scaled(xs: seq<real>, gain: real): (r: seq<int>)
    ensures |r| == |xs|
  {
    seq(|xs|, j requires 0 <= j < |xs| => Scale(xs[j], gain))
  }

  /** Entry j of the scaled values is value j times the gain, truncated. */
  lemma {:induction false} ScaledAt(xs: seq<real>, gain: real, j: nat)
    requires j < |xs|
    ensures Scaled(xs, gain)[j] == Scale(xs[j], gain)
  {
  }

  /** The columns of one output row before scaling: the twelve standard
      columns and then the extra leads. */
  function Columns(s: map<string, real>, leads: seq<string>): (r: seq<real>)
    requires HasIndependent(s)
    requires forall l :: l in leads ==> l in s
  {
    Derived(s) + Values(s, ExtraLeads(leads))
  }

  /** One output row: every column scaled by the gain and truncated. */
  function Row(s: map<string, real>, gain: real, leads: seq<string>): (r: seq<int>)
    requires HasIndependent(s)
    requires forall l :: l in leads ==> l in s
  {
    Scaled(Columns(s, leads), gain)
  }

  lemma ScaledSnoc(xs: seq<real>, x: real, gain: real)
    ensures Scaled(xs + [x], gain) == Scaled(xs, gain) + [Scale(x, gain)]
  {
    var ys := xs + [x];
    assert forall j :: 0 <= j < |xs| ==> ys[j] == xs[j];
  }

  /** Taking one more lead into account adds its scaled sample to the row
      exactly when it is an extra lead (d stands for the standard columns). */
  lemma RowGrows(d: seq<real>, s: map<string, real>, leads: seq<string>, keep: set<string>, k: nat, gain: real)
    requires forall l :: l in leads ==> l in s
    requires k < |leads|
    ensures Scaled(d + Values(s, Select(leads[..k + 1], keep)), gain)
      == Scaled(d + Values(s, Select(leads[..k], keep)), gain)
         + (if leads[k] in keep then [Scale(s[leads[k]], gain)] else [])
  {
    var before := Select(leads[..k], keep);
    SelectSnoc(leads, keep, k);
    if leads[k] in keep {
      var v, x := Values(s, before), s[leads[k]];
      ValuesSnoc(s, before, leads[k]);
      assert d + (v + [x]) == (d + v) + [x];
      ScaledSnoc(d + v, x, gain);
    } else {
      assert before + [] == before;
    }
  }

  lemma SelectSnoc(leads: seq<string>, keep: set<string>, k: nat)
    requires k < |leads|
    ensures Select(leads[..k + 1], keep) == Select(leads[..k], keep) + (if leads[k] in keep then [leads[k]] else [])
  {
    assert leads[..k + 1][..k] == leads[..k];
  }

  /** A one-lead list keeps its lead exactly when it lies in the set. */
  lemma SelectOne(x: string, keep: set<string>)
    ensures Select([x], keep) == if x in keep then [x] else []
  {
    assert [x][..0] == [];
  }

  /** Selection distributes over concatenation: the leads kept from a + b are
      those kept from a followed by those kept from b, so list order and
      repetitions are preserved. */
  lemma {:induction false} SelectAppend(a: seq<string>, b: seq<string>, keep: set<string>)
    ensures Select(a + b, keep) == Select(a, keep) + Select(b, keep)
    decreases |b|
  {
    if b == [] {
      assert a + b == a;
      assert Select(b, keep) == [];
    } else {
      var last := b[|b| - 1];
      assert (a + b)[..|a + b| - 1] == a + b[..|b| - 1];
      assert (a + b)[|a + b| - 1] == last;
      SelectAppend(a, b[..|b| - 1], keep);
    }
  }

  /** Each lead occurs in the selection as often as in the list when it lies
      in the set, and not at all otherwise. */
  lemma {:induction false} SelectCounts(leads: seq<string>, keep: set<string>, l: string)
    ensures multiset(Select(leads, keep))[l] == if l in keep then multiset(leads)[l] else 0
    decreases |leads|
  {
    if leads != [] {
      var init, last := leads[..|leads| - 1], leads[|leads| - 1];
      assert leads == init + [last];
      SelectCounts(init, keep, l);
    }
  }

  lemma ValuesSnoc(s: map<string, real>, xs: seq<string>, x: string)
    requires forall i :: 0 <= i < |xs| ==> xs[i] in s
    requires x in s
    ensures Values(s, xs + [x]) == Values(s, xs) + [s[x]]
  {
    assert (xs + [x])[..|xs|] == xs;
  }

  /** A row has one column per header name, and every column that the header
      names after a recorded lead (I, II, V1..V6 and the extras) holds that
      lead's sample. */
  lemma ColumnsMatchHeader(s: map<string, real>, leads: seq<string>)
    requires HasIndependent(s)
    requires forall l :: l in leads ==> l in s
    ensures |Columns(s, leads)| == |Header(leads)|
    ensures forall j :: 12 <= j < |Header(leads)| ==>
      Header(leads)[j] in s && Columns(s, leads)[j] == s[Header(leads)[j]]
    ensures forall j :: (0 <= j < 2 || 6 <= j < 12) ==> Columns(s, leads)[j] == s[CanonicalLeads[j]]
  {
    var extras := ExtraLeads(leads);
    var h := Header(leads);
    var d := Derived(s);
    var c := Columns(s, leads);
    forall j | 0 <= j < 2 || 6 <= j < 12 ensures c[j] == s[CanonicalLeads[j]] {
      assert c[j] == d[j];
      if j == 0 {} else if j == 1 {} else if j == 6 {} else if j == 7 {}
      else if j == 8 {} else if j == 9 {} else if j == 10 {} else {}
    }
    forall j | 12 <= j < |h| ensures h[j] in s && c[j] == s[h[j]] {
      assert h[j] == extras[j - 12];
      assert c[j] == Values(s, extras)[j - 12];
    }
  }

  /** The derived limb leads satisfy Einthoven's law, I + III = II, and
      Goldberger's definitions aVR = -(I + II) / 2, aVL = (I - III) / 2 and
      aVF = (II + III) / 2, so that the three sum to zero, before gain and
      truncation. */
  lemma EinthovenGoldberger(s: map<string, real>)
    requires HasIndependent(s)
    ensures Derived(s)[0] + Derived(s)[2] == Derived(s)[1]
    ensures Derived(s)[3] + Derived(s)[4] + Derived(s)[5] == 0.0
    ensures Derived(s)[3] == -(Derived(s)[0] + Derived(s)[1]) / 2.0
    ensures Derived(s)[4] == (Derived(s)[0] - Derived(s)[2]) / 2.0
    ensures Derived(s)[5] == (Derived(s)[1] + Derived(s)[2]) / 2.0
  {
  }

  /** With I = 100, II = 50 and gain 2.5 the first three columns are 250, 125
      and -125. */
  lemma GainExample(s: map<string, real>)
    requires HasIndependent(s) && s["I"] == 100.0 && s["II"] == 50.0
    ensures Row(s, 2.5, IndependentLeads)[..3] == [250, 125, -125]
  {
    var d := Derived(s);
    ScaledAt(Columns(s, IndependentLeads), 2.5, 0);
    ScaledAt(Columns(s, IndependentLeads), 2.5, 1);
    ScaledAt(Columns(s, IndependentLeads), 2.5, 2);
    assert d[0] * 2.5 == 250.0 && d[1] * 2.5 == 125.0 && d[2] * 2.5 == -125.0;
    assert Trunc(250.0) == 250 && Trunc(125.0) == 125 && Trunc(-125.0) == -125;
  }

  lemma MulStep(r: nat, m: nat, L: nat)
    requires r < m
    ensures r * L + L <= m * L
  {
    assert (r + 1) * L <= m * L by {
      var d := m - (r + 1);
      assert m * L == (r + 1) * L + d * L;
    }
  }

  lemma MulMono(a: nat, b: nat, L: nat)
    requires a <= b
    ensures a * L <= b * L
  {
    assert b * L == a * L + (b - a) * L;
  }

  lemma MulLess(a: nat, b: nat, L: nat)
    requires a * L < b * L
    ensures a < b
  {
    if b <= a {
      MulMono(b, a, L);
    }
  }

  lemma NextRow(q: nat, L: nat)
    ensures (q + 1) * L == q * L + L
  {
  }

  /** q whole rows of L values are q rows and nothing more. */
  lemma ModMul(q: nat, L: nat)
    requires L > 0
    ensures (q * L) % L == 0 && (q * L) / L == q
  {
    var p := q * L;
    var d, m := p / L, p % L;
    assert p == d * L + m && 0 <= m < L;
    if d < q {
      MulMono(d + 1, q, L);
    }
  }

  /** A row starting before the end of a buffer of whole rows ends inside it. */
  lemma RowFits(q: nat, p: nat, L: nat)
    requires L > 0 && q * L < p && p % L == 0
    ensures q * L + L <= p
  {
    var d := p / L;
    assert p == d * L;
    MulLess(q, d, L);
    MulMono(q + 1, d, L);
    assert (q + 1) * L == q * L + L;
  }

  /** The table writeCSV builds from the first q rows of the buffer: row r
      from the samples of timestep r. */
  function Table(zcg: seq<int>, leads: seq<string>, gain: real, q: nat): (t: seq<seq<int>>)
    requires RecordsIndependent(leads)
    requires q * |leads| <= |zcg|
    ensures |t| == q
  {
    seq(q, r requires 0 <= r < q =>
      MulStep(r, q, |leads|);
      Row(RowSamples(zcg, leads, r * |leads|), gain, leads))
  }

  /** Filling any dictionary whose keys are leads with timestep r gives the
      samples of timestep r: no key of an earlier timestep survives. */
  lemma FillIsRowSamples(zcg: seq<int>, leads: seq<string>, i: nat, m: map<string, real>)
    requires i + |leads| <= |zcg|
    requires forall l :: l in m ==> l in leads
    ensures Assign(m, leads, zcg[i..i + |leads|]) == RowSamples(zcg, leads, i)
  {
    AssignOverwrites(m, leads, zcg[i..i + |leads|]);
  }

  /** Appending the row of timestep q extends the table by one row. */
  lemma TableSnoc(zcg: seq<int>, leads: seq<string>, gain: real, q: nat, s: map<string, real>, row: seq<int>)
    requires RecordsIndependent(leads)
    requires q * |leads| + |leads| <= |zcg|
    requires s == RowSamples(zcg, leads, q * |leads|)
    requires HasIndependent(s)
    requires row == Row(s, gain, leads)
    ensures (q + 1) * |leads| <= |zcg|
    ensures Table(zcg, leads, gain, q + 1) == Table(zcg, leads, gain, q) + [row]
  {
    NextRow(q, |leads|);
  }

  /** In the samples of row r a lead holds the buffer entry at its last
      position in the row. */
  lemma RowSamplesAt(zcg: seq<int>, leads: seq<string>, i: nat, l: string)
    requires i + |leads| <= |zcg| && l in leads
    ensures RowSamples(zcg, leads, i)[l] == zcg[i + LastIndex(leads, l)] as real
  {
    var vals := zcg[i..i + |leads|];
    AssignAt(map[], leads, vals, l);
    assert vals[LastIndex(leads, l)] == zcg[i + LastIndex(leads, l)];
  }

  /** Decoding and row building fit together: in row r of an interleaved
      buffer every recorded lead holds its own sample r, even when the lead is
      listed more than once. */
  lemma DecodedRow(data: map<string, seq<Byte>>, leads: seq<string>, m: nat, r: nat, l: string)
    requires Covers(data, leads, 2 * m)
    requires r < m && l in leads
    ensures r * |leads| + |leads| <= |Interleaved(data, leads, m)|
    ensures l in data && 2 * r + 1 < |data[l]|
    ensures RowSamples(Interleaved(data, leads, m), leads, r * |leads|)[l] == SampleAt(data[l], r) as real
  {
    var z := Interleaved(data, leads, m);
    InterleavedLength(data, leads, m);
    RowOfBuffer(z, leads, m, r, l);
    InterleavedAt(data, leads, m, r, LastIndex(leads, l));
  }

  /** Row r of a buffer of m whole rows lies inside it, and a lead's sample
      in that row is the entry at the lead's last position. */
  lemma RowOfBuffer(z: seq<int>, leads: seq<string>, m: nat, r: nat, l: string)
    requires |z| == m * |leads| && r < m && l in leads
    ensures r * |leads| + |leads| <= |z|
    ensures RowSamples(z, leads, r * |leads|)[l] == z[r * |leads| + LastIndex(leads, l)] as real
  {
    MulStep(r, m, |leads|);
    RowSamplesAt(z, leads, r * |leads|, l);
  }
}
