/** `get_lead_data`: the twelve-lead set of one parsed MUSE document. The
    recorded leads come from the `LeadData` of the rhythm waveforms; lead III and
    the augmented leads aVR, aVL and aVF are then derived from leads I and II. */
module LeadAssembler {
  import opened Results
  import opened PyText
  import Base64
  import WaveformDecoder

  /** One `LeadData` element: the texts of its `LeadID` and `WaveFormData`
      children and the value of its `LeadAmplitudeUnitsPerBit` child, each
      `None` when the child is absent. */
  datatype LeadData = LeadData(leadId: Option<string>, waveFormData: Option<string>, unitsPerBit: Option<real>)

  /** One `Waveform` element: the text of its `WaveformType` child (`None` when
      there is none) and its `LeadData` descendants in document order. */
  datatype Waveform = Waveform(waveformType: Option<string>, leadData: seq<LeadData>)

  /** What a key of the lead map holds: samples, or the decoder's error value. */
  type Series = Result<seq<real>, Base64.DecodeError>
  type Leads = map<string, Series>

  /** The ways `get_lead_data` raises on a document that parsed. */
  datatype AssemblyError =
    | MissingWaveformType    // reading `.text` of an absent `WaveformType`
    | LimbLeadNotNumeric     // lead I or II holds a decoder error, which numpy cannot subtract
    | LimbLeadShapeMismatch  // leads I and II have lengths numpy cannot broadcast together

  const LEAD_KEYS: set<string> :=
    {"I", "II", "III", "aVR", "aVL", "aVF", "V1", "V2", "V3", "V4", "V5", "V6"}
  const DERIVED_KEYS: set<string> := {"III", "aVR", "aVL", "aVF"}
  const UNKNOWN_LEAD_ID: string := "[Unknown LeadID]"

  /** The map the source starts from: every lead an empty series. */
  function SeedLeads(): (m: Leads)
    ensures m.Keys == LEAD_KEYS
  {
    map k | k in LEAD_KEYS :: Ok([])
  }

  /** The key a `LeadData` is stored under: its `LeadID` trimmed and upper-cased,
      or the placeholder for a missing one. Neither can be an augmented lead's
      mixed-case name. */
  function LeadKey(leadId: Option<string>): (key: string)
    ensures leadId.Some? ==> SameIgnoringCase(Strip(leadId.value), key) && NoLowerCase(key)
    ensures leadId.None? ==> key == UNKNOWN_LEAD_ID && key !in LEAD_KEYS
    ensures key != "aVR" && key != "aVL" && key != "aVF"
  {
    match leadId
    case Some(text) =>
      var key := Upper(Strip(text));
      assert |key| > 0 ==> key[0] != 'a';
      key
    case None => UNKNOWN_LEAD_ID
  }

  /** `WaveFormData` trimmed (empty when absent) and decoded at the lead's
      `LeadAmplitudeUnitsPerBit` (1.0 when absent). */
  function DecodeLead(ld: LeadData): (r: Series)
    ensures ld.waveFormData.None? ==> r == Ok([])
    ensures ld.waveFormData.Some? ==>
      r == WaveformDecoder.DecodeWaveform(Strip(ld.waveFormData.value), ld.unitsPerBit.GetOr(1.0))
    ensures r.Err? <==> ld.waveFormData.Some? && Base64.Decode(Strip(ld.waveFormData.value)).Err?
  {
    var text := if ld.waveFormData.Some? then Strip(ld.waveFormData.value) else "";
    var scale := if ld.unitsPerBit.Some? then ld.unitsPerBit.value else 1.0;
    WaveformDecoder.DecodeEmptyBlob(scale);
    WaveformDecoder.DecodeWaveform(text, scale)
  }

  /** A `LeadID` that spells a recorded lead's name in any mixture of cases,
      with any whitespace around it, is stored under that name. */
  lemma LeadKeyIgnoresCaseAndPadding(pre: string, x: string, post: string, k: string)
    requires k in LEAD_KEYS - DERIVED_KEYS
    requires AllSpace(pre) && AllSpace(post) && SameIgnoringCase(x, k)
    ensures LeadKey(Some(pre + x + post)) == k
  {
    RecordedNameIsWord(k);
    StripPadded(pre, x, post);
    UpperMatches(x, k);
  }

  /** The names of the recorded leads are capitals and digits. */
  lemma RecordedNameIsWord(k: string)
    requires k in LEAD_KEYS - DERIVED_KEYS
    ensures NoLowerCase(k) && k != [] && k[0] in "IV" && k[|k| - 1] in "I123456"
  {
  }

  /** A `LeadID` is stored under a name without lower-case letters exactly when,
      trimmed, it spells that name in any mixture of cases. */
  lemma LeadKeyMatches(t: string, k: string)
    requires NoLowerCase(k)
    ensures LeadKey(Some(t)) == k <==> SameIgnoringCase(Strip(t), k)
  {
    UpperMatches(Strip(t), k);
  }

  lemma LowerCaseLeadIdExample()
    ensures LeadKey(Some(" v1 ")) == "V1"
  {
    LeadKeyIgnoresCaseAndPadding(" ", "v1", " ", "V1");
    assert " " + "v1" + " " == " v1 ";
  }

  /** One pass of the inner loop: a lead whose key is in the map replaces the
      series stored there; any other lead leaves the map as it was. */
  function StoreLead(m: Leads, ld: LeadData): (m': Leads)
    ensures m'.Keys == m.Keys
    ensures LeadKey(ld.leadId) !in m ==> m' == m
  {
    var key := LeadKey(ld.leadId);
    if key in m then m[key := DecodeLead(ld)] else m
  }

  /** The inner loop over the `LeadData` of one rhythm waveform. */
  function StoreLeads(m: Leads, lds: seq<LeadData>): (m': Leads)
    ensures m'.Keys == m.Keys
    decreases |lds|
  {
    if lds == [] then m else StoreLead(StoreLeads(m, lds[..|lds| - 1]), lds[|lds| - 1])
  }

  /** `waveform.find('WaveformType').text.lower() == 'rhythm'`: the type spells
      `rhythm` in any mixture of cases, with no whitespace around it. */
  function IsRhythm(w: Waveform): (b: bool)
    requires w.waveformType.Some?
    ensures b <==> SameIgnoringCase(w.waveformType.value, "rhythm")
  {
    LowerMatches(w.waveformType.value, "rhythm");
    Lower(w.waveformType.value) == "rhythm"
  }

  /** The outer loop over the `Waveform` elements: non-rhythm waveforms are
      skipped, and a waveform without a type stops the document. */
  function StoreWaveforms(m: Leads, ws: seq<Waveform>): (r: Result<Leads, AssemblyError>)
    ensures r.Ok? ==> r.value.Keys == m.Keys
    ensures r.Err? ==> r.error == MissingWaveformType
    decreases |ws|
  {
    if ws == [] then Ok(m)
    else
      match StoreWaveforms(m, ws[..|ws| - 1])
      case Err(e) => Err(e)
      case Ok(m') =>
        var w := ws[|ws| - 1];
        if w.waveformType.None? then Err(MissingWaveformType)
        else if !IsRhythm(w) then Ok(m')
        else Ok(StoreLeads(m', w.leadData))
  }

  /** numpy's broadcasting rule for two one-dimensional arrays. */
  predicate Broadcastable(a: seq<real>, b: seq<real>) {
    |a| == |b| || |a| == 1 || |b| == 1
  }

  function BroadcastLength(a: seq<real>, b: seq<real>): nat
    requires Broadcastable(a, b)
  {
    if |a| == 1 then |b| else |a|
  }

  /** Element `k` of `a` stretched to the broadcast length. */
  function At(a: seq<real>, k: nat): real
    requires k < |a| || |a| == 1
  {
    if |a| == 1 then a[0] else a[k]
  }

  /** An elementwise numpy expression over leads I and II. */
  function Elementwise(i: seq<real>, ii: seq<real>, f: (real, real) -> real): (r: seq<real>)
    requires Broadcastable(i, ii)
    ensures |r| == BroadcastLength(i, ii)
    ensures forall k :: 0 <= k < |r| ==> r[k] == f(At(i, k), At(ii, k))
  {
    seq(BroadcastLength(i, ii), k requires 0 <= k < BroadcastLength(i, ii) => f(At(i, k), At(ii, k)))
  }

  function LeadIII(i: real, ii: real): real { ii - i }
  function LeadAVR(i: real, ii: real): real { -(i + ii) / 2.0 }
  function LeadAVL(i: real, ii: real): real { i - ii / 2.0 }
  function LeadAVF(i: real, ii: real): real { ii - i / 2.0 }

  /** The four assignments after the loops: III, aVR, aVL and aVF from I and II,
      whatever the map held under those keys before. */
  function Derive(m: Leads): (r: Result<Leads, AssemblyError>)
    requires "I" in m && "II" in m
    ensures r.Ok? <==> m["I"].Ok? && m["II"].Ok? && Broadcastable(m["I"].value, m["II"].value)
    ensures r.Err? ==> r.error == if m["I"].Ok? && m["II"].Ok? then LimbLeadShapeMismatch else LimbLeadNotNumeric
    ensures r.Ok? ==> r.value.Keys == m.Keys + DERIVED_KEYS
    ensures r.Ok? ==> forall k :: k in m && k !in DERIVED_KEYS ==> r.value[k] == m[k]
  {
    match (m["I"], m["II"])
    case (Ok(i), Ok(ii)) =>
      if !Broadcastable(i, ii) then Err(LimbLeadShapeMismatch)
      else
        Ok(m["III" := Ok(Elementwise(i, ii, LeadIII))]
            ["aVR" := Ok(Elementwise(i, ii, LeadAVR))]
            ["aVL" := Ok(Elementwise(i, ii, LeadAVL))]
            ["aVF" := Ok(Elementwise(i, ii, LeadAVF))])
    case _ => Err(LimbLeadNotNumeric)
  }

  /** What `get_lead_data` computes for a parsed document. */
  function AssembleLeads(doc: seq<Waveform>): (r: Result<Leads, AssemblyError>)
    ensures r.Ok? ==> r.value.Keys == LEAD_KEYS
  {
    match StoreWaveforms(SeedLeads(), doc)
    case Err(e) => Err(e)
    case Ok(m) => Derive(m)
  }

  /** Once a prefix of the waveforms has raised, the whole document has. */
  lemma {:induction false} ErrorPersists(m: Leads, ws: seq<Waveform>, n: nat)
    requires n <= |ws|
    requires StoreWaveforms(m, ws[..n]).Err?
    ensures StoreWaveforms(m, ws) == StoreWaveforms(m, ws[..n])
    decreases |ws|
  {
    if n < |ws| {
      var init := ws[..|ws| - 1];
      assert init[..n] == ws[..n];
      ErrorPersists(m, init, n);
    } else {
      assert ws[..n] == ws;
    }
  }

  /** `get_lead_data(filename)` once the document is parsed: seed the map,
      store the leads of the rhythm waveforms, then derive III, aVR, aVL and aVF. */
  method GetLeadData(doc: seq<Waveform>) returns (r: Result<Leads, AssemblyError>)
    ensures r == AssembleLeads(doc)
  {
    var leads := SeedLeads();
    var i := 0;
    while i < |doc|
      invariant 0 <= i <= |doc|
      invariant StoreWaveforms(SeedLeads(), doc[..i]) == Ok(leads)
      invariant leads.Keys == LEAD_KEYS
    {
      var waveform := doc[i];
      assert doc[..i + 1][..i] == doc[..i] && doc[..i + 1][i] == waveform;
      if waveform.waveformType.None? {
        ErrorPersists(SeedLeads(), doc, i + 1);
        return Err(MissingWaveformType);
      }
      if Lower(waveform.waveformType.value) == "rhythm" {
        leads := StoreRhythmLeads(leads, waveform.leadData);
      }
      i := i + 1;
    }
    assert doc[..i] == doc;
    r := DeriveLimbLeads(leads);
  }

  /** The inner loop of `get_lead_data` over the `LeadData` of one rhythm
      waveform: later leads with the same key overwrite earlier ones. */
  method StoreRhythmLeads(leads: Leads, lds: seq<LeadData>) returns (stored: Leads)
    ensures stored == StoreLeads(leads, lds)
  {
    stored := leads;
    var j := 0;
    while j < |lds|
      invariant 0 <= j <= |lds|
      invariant stored == StoreLeads(leads, lds[..j])
    {
      var ld := lds[j];
      var leadId := if ld.leadId.Some? then Upper(Strip(ld.leadId.value)) else UNKNOWN_LEAD_ID;
      var text := if ld.waveFormData.Some? then Strip(ld.waveFormData.value) else "";
      assert leadId == LeadKey(ld.leadId);
      StoreLeadsStep(leads, lds, j);
      if leadId in stored {
        var scale := if ld.unitsPerBit.Some? then ld.unitsPerBit.value else 1.0;
        assert WaveformDecoder.DecodeWaveform(text, scale) == DecodeLead(ld);
        stored := stored[leadId := WaveformDecoder.DecodeWaveform(text, scale)];
      }
      j := j + 1;
    }
    assert lds[..j] == lds;
  }

  lemma StoreLeadsStep(m: Leads, lds: seq<LeadData>, j: nat)
    requires j < |lds|
    ensures StoreLeads(m, lds[..j + 1]) == StoreLead(StoreLeads(m, lds[..j]), lds[j])
  {
    assert lds[..j + 1][..j] == lds[..j];
  }

  /** The four assignments that close `get_lead_data`. numpy raises when lead I
      or II is not numeric or when their lengths do not broadcast. */
  method DeriveLimbLeads(leads: Leads) returns (r: Result<Leads, AssemblyError>)
    requires "I" in leads && "II" in leads
    ensures r == Derive(leads)
    ensures r.Ok? <==> leads["I"].Ok? && leads["II"].Ok? && Broadcastable(leads["I"].value, leads["II"].value)
  {
    if leads["I"].Err? || leads["II"].Err? {
      return Err(LimbLeadNotNumeric);
    }
    var limbI, limbII := leads["I"].value, leads["II"].value;
    if !Broadcastable(limbI, limbII) {
      return Err(LimbLeadShapeMismatch);
    }
    var derived := leads;
    derived := derived["III" := Ok(Elementwise(limbI, limbII, LeadIII))];
    derived := derived["aVR" := Ok(Elementwise(limbI, limbII, LeadAVR))];
    derived := derived["aVL" := Ok(Elementwise(limbI, limbII, LeadAVL))];
    derived := derived["aVF" := Ok(Elementwise(limbI, limbII, LeadAVF))];
    r := Ok(derived);
  }

  /** The seeded map has exactly twelve keys, each an empty series. */
  lemma SeedHasTwelveEmptyLeads()
    ensures |SeedLeads()| == 12
    ensures forall k :: k in SeedLeads() ==> SeedLeads()[k] == Ok([])
  {
    var m := SeedLeads();
    assert |m.Keys| == |LEAD_KEYS|;
  }

  /** The keys the leads of `lds` are stored under, in order. */
  function KeysOf(lds: seq<LeadData>): (keys: seq<string>)
    ensures |keys| == |lds|
  {
    seq(|lds|, j requires 0 <= j < |lds| => LeadKey(lds[j].leadId))
  }

  /** The position of the last occurrence of `key` in `keys`, if any. */
  function LastIndex(keys: seq<string>, key: string): (r: Option<nat>)
    ensures r.Some? ==> r.value < |keys| && keys[r.value] == key
    ensures r.Some? ==> forall j :: r.value < j < |keys| ==> keys[j] != key
    ensures r.None? ==> forall j :: 0 <= j < |keys| ==> keys[j] != key
    decreases |keys|
  {
    if keys == [] then None
    else if keys[|keys| - 1] == key then Some(|keys| - 1)
    else LastIndex(keys[..|keys| - 1], key)
  }

  /** Last writer wins: after the inner loop, a key holds the decoding of the
      last lead stored under it, or what it held before when there is none. */
  lemma {:induction false} StoreLeadsLastWins(m: Leads, lds: seq<LeadData>, key: string)
    requires key in m
    ensures StoreLeads(m, lds)[key] ==
      match LastIndex(KeysOf(lds), key)
      case Some(j) => DecodeLead(lds[j])
      case None => m[key]
    decreases |lds|
  {
    if lds != [] {
      var init, last := lds[..|lds| - 1], lds[|lds| - 1];
      var keys := KeysOf(lds);
      StoreLeadsLastWins(m, init, key);
      assert keys[..|lds| - 1] == KeysOf(init);
      if keys[|lds| - 1] == key {
        assert LastIndex(keys, key) == Some(|lds| - 1);
      } else {
        assert LastIndex(keys, key) == LastIndex(KeysOf(init), key);
        match LastIndex(KeysOf(init), key)
        case Some(j) => assert lds[j] == init[j];
        case None =>
      }
    }
  }

  /** Storing two runs of leads is storing the first, then the second. */
  lemma {:induction false} StoreLeadsAppend(m: Leads, a: seq<LeadData>, b: seq<LeadData>)
    ensures StoreLeads(m, a + b) == StoreLeads(StoreLeads(m, a), b)
    decreases |b|
  {
    if b == [] {
      assert a + b == a;
    } else {
      var init := b[..|b| - 1];
      assert (a + b)[..|a + b| - 1] == a + init;
      StoreLeadsAppend(m, a, init);
    }
  }

  predicate AllTyped(ws: seq<Waveform>) {
    forall k :: 0 <= k < |ws| ==> ws[k].waveformType.Some?
  }

  /** The `LeadData` of the rhythm waveforms, in document order. */
  function RhythmLeadData(ws: seq<Waveform>): seq<LeadData>
    requires AllTyped(ws)
    decreases |ws|
  {
    if ws == [] then []
    else
      var w := ws[|ws| - 1];
      RhythmLeadData(ws[..|ws| - 1]) + (if IsRhythm(w) then w.leadData else [])
  }

  /** The outer loop stores exactly the leads of the rhythm waveforms, in
      order, and raises exactly when some waveform has no type. */
  lemma {:induction false} StoreWaveformsFlattens(m: Leads, ws: seq<Waveform>)
    ensures AllTyped(ws) ==> StoreWaveforms(m, ws) == Ok(StoreLeads(m, RhythmLeadData(ws)))
    ensures !AllTyped(ws) ==> StoreWaveforms(m, ws) == Err(MissingWaveformType)
    decreases |ws|
  {
    if ws == [] {
      assert StoreLeads(m, []) == m;
    } else {
      var init := ws[..|ws| - 1];
      var w := ws[|ws| - 1];
      StoreWaveformsFlattens(m, init);
      TypedPrefix(ws);
      if AllTyped(ws) {
        var before := RhythmLeadData(init);
        var stored := StoreLeads(m, before);
        assert StoreWaveforms(m, init) == Ok(stored);
        if IsRhythm(w) {
          assert RhythmLeadData(ws) == before + w.leadData;
          StoreLeadsAppend(m, before, w.leadData);
          assert StoreWaveforms(m, ws) == Ok(StoreLeads(stored, w.leadData));
        } else {
          assert RhythmLeadData(ws) == before + [];
          assert before + [] == before;
          assert StoreWaveforms(m, ws) == Ok(stored);
        }
      }
    }
  }

  lemma TypedPrefix(ws: seq<Waveform>)
    requires ws != []
    ensures AllTyped(ws) <==> AllTyped(ws[..|ws| - 1]) && ws[|ws| - 1].waveformType.Some?
  {
    var init := ws[..|ws| - 1];
    if AllTyped(init) && ws[|ws| - 1].waveformType.Some? {
      forall k | 0 <= k < |ws| ensures ws[k].waveformType.Some? {
        if k < |init| { assert ws[k] == init[k]; }
      }
    }
  }

  /** A recorded lead (I, II, V1 to V6) holds the decoding of the last `LeadData`
      of a rhythm waveform stored under its name, and an empty series when there
      is none. */
  lemma RecordedLead(doc: seq<Waveform>, key: string)
    requires key in LEAD_KEYS - DERIVED_KEYS
    requires AssembleLeads(doc).Ok?
    ensures AllTyped(doc)
    ensures AssembleLeads(doc).value[key] == Recorded(doc, key)
  {
    StoreWaveformsFlattens(SeedLeads(), doc);
    StoreLeadsLastWins(SeedLeads(), RhythmLeadData(doc), key);
  }

  /** What a recorded lead holds once the rhythm waveforms are stored: the
      decoding of the last `LeadData` stored under its name, else an empty series. */
  function Recorded(doc: seq<Waveform>, key: string): Series
    requires AllTyped(doc)
  {
    var lds := RhythmLeadData(doc);
    match LastIndex(KeysOf(lds), key)
    case Some(j) => DecodeLead(lds[j])
    case None => Ok([])
  }

  /** `get_lead_data` returns exactly when every waveform has a type and the
      recorded leads I and II are numeric and broadcast together; otherwise it
      raises for the first of these that fails. */
  lemma AssemblySucceeds(doc: seq<Waveform>)
    ensures !AllTyped(doc) ==> AssembleLeads(doc) == Err(MissingWaveformType)
    ensures AllTyped(doc) ==>
      var i, ii := Recorded(doc, "I"), Recorded(doc, "II");
      && (AssembleLeads(doc).Ok? <==> i.Ok? && ii.Ok? && Broadcastable(i.value, ii.value))
      && (AssembleLeads(doc).Err? ==>
            AssembleLeads(doc).error == if i.Ok? && ii.Ok? then LimbLeadShapeMismatch else LimbLeadNotNumeric)
  {
    StoreWaveformsFlattens(SeedLeads(), doc);
    if AllTyped(doc) {
      StoreLeadsLastWins(SeedLeads(), RhythmLeadData(doc), "I");
      StoreLeadsLastWins(SeedLeads(), RhythmLeadData(doc), "II");
    }
  }

  /** The augmented leads are never taken from the document: no key computed
      from a `LeadID` names them. */
  lemma AugmentedNeverStored(lds: seq<LeadData>, key: string)
    requires key in {"aVR", "aVL", "aVF"}
    ensures StoreLeads(SeedLeads(), lds)[key] == Ok([])
  {
    StoreLeadsLastWins(SeedLeads(), lds, key);
  }

  /** The derived leads, whatever the document held under their names: each
      has the broadcast length of I and II; for I and II of equal length,
      III = II - I, aVR = -(I + II) / 2, aVL = I - II / 2 and aVF = II - I / 2
      elementwise, so that I + III = II; and always aVR + aVL + aVF = 0. */
  lemma EinthovenGoldberger(doc: seq<Waveform>)
    requires AssembleLeads(doc).Ok?
    ensures LimbIdentities(AssembleLeads(doc).value)
  {
    DeriveIdentities(StoreWaveforms(SeedLeads(), doc).value);
  }

  /** The relations between the six limb leads of a lead map. */
  predicate LimbIdentities(leads: Leads) {
    && "I" in leads && "II" in leads && "III" in leads
    && "aVR" in leads && "aVL" in leads && "aVF" in leads
    && leads["I"].Ok? && leads["II"].Ok? && leads["III"].Ok?
    && leads["aVR"].Ok? && leads["aVL"].Ok? && leads["aVF"].Ok?
    && var i, ii, iii := leads["I"].value, leads["II"].value, leads["III"].value;
    && var avr, avl, avf := leads["aVR"].value, leads["aVL"].value, leads["aVF"].value;
    && Broadcastable(i, ii)
    && |iii| == |avr| == |avl| == |avf| == BroadcastLength(i, ii)
    && (forall k :: 0 <= k < |iii| ==> avr[k] + avl[k] + avf[k] == 0.0)
    && (forall k :: 0 <= k < |iii| ==>
          && iii[k] == At(ii, k) - At(i, k)
          && avr[k] == -(At(i, k) + At(ii, k)) / 2.0
          && avl[k] == At(i, k) - At(ii, k) / 2.0
          && avf[k] == At(ii, k) - At(i, k) / 2.0)
    && (|i| == |ii| ==> |iii| == |i| && forall k :: 0 <= k < |i| ==>
          && iii[k] == ii[k] - i[k] && i[k] + iii[k] == ii[k]
          && avr[k] == -(i[k] + ii[k]) / 2.0
          && avl[k] == i[k] - ii[k] / 2.0
          && avf[k] == ii[k] - i[k] / 2.0)
  }

  /** The four derived assignments establish the limb-lead relations. */
  lemma DeriveIdentities(m: Leads)
    requires "I" in m && "II" in m && Derive(m).Ok?
    ensures LimbIdentities(Derive(m).value)
  {
    var i, ii := m["I"].value, m["II"].value;
    var iii := Elementwise(i, ii, LeadIII);
    var avr, avl, avf := Elementwise(i, ii, LeadAVR), Elementwise(i, ii, LeadAVL), Elementwise(i, ii, LeadAVF);
    forall k | 0 <= k < |iii| ensures avr[k] + avl[k] + avf[k] == 0.0 {
      var x, y := At(i, k), At(ii, k);
      assert avr[k] + avl[k] + avf[k] == -(x + y) / 2.0 + (x - y / 2.0) + (y - x / 2.0);
    }
  }

  /** A document with no rhythm waveform yields twelve empty leads, the
      derived ones included. */
  lemma NoRhythmAllEmpty(doc: seq<Waveform>)
    requires AllTyped(doc)
    requires forall k :: 0 <= k < |doc| ==> !IsRhythm(doc[k])
    ensures AssembleLeads(doc) == Ok(SeedLeads())
  {
    StoreWaveformsFlattens(SeedLeads(), doc);
    assert RhythmLeadData(doc) == [] by {
      NoRhythmNoLeads(doc);
    }
    var m := SeedLeads();
    assert StoreLeads(m, []) == m;
    var derived := Derive(m);
    assert derived.Ok?;
    assert derived.value == m;
  }

  lemma {:induction false} NoRhythmNoLeads(ws: seq<Waveform>)
    requires AllTyped(ws)
    requires forall k :: 0 <= k < |ws| ==> !IsRhythm(ws[k])
    ensures RhythmLeadData(ws) == []
    decreases |ws|
  {
    if ws != [] {
      var init := ws[..|ws| - 1];
      assert forall k :: 0 <= k < |init| ==> init[k] == ws[k];
      NoRhythmNoLeads(init);
    }
  }
}
