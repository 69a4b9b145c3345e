/** The seed form's state: its empty defaults, restoring the autosave
    under 'agri_content_form_autosave', syncing from a history entry's
    input, editing one field, and the sample fill. */
module SeedForm {
  import opened Types

  /** The nine named inputs of the form. */
  datatype Field =
    | SeedName | Price | StrongPoints | HarvestTime | SuitableSpace | PurchaseLink
    | RecommendedCombos | CustomImagePrompt | SeoKeywords

  /** A decoded autosave: any field may be missing from the parsed object. */
  datatype SavedForm = SavedForm(
    seedName: Option<string>,
    price: Option<string>,
    strongPoints: Option<string>,
    harvestTime: Option<string>,
    suitableSpace: Option<string>,
    purchaseLink: Option<string>,
    recommendedCombos: Option<string>,
    customImagePrompt: Option<string>,
    seoKeywords: Option<string>)

  /** The value of a field, `None` when an optional one is undefined. */
  function Get(f: SeedInput, k: Field): Option<string>
  {
    match k
    case SeedName => Some(f.seedName)
    case Price => Some(f.price)
    case StrongPoints => Some(f.strongPoints)
    case HarvestTime => Some(f.harvestTime)
    case SuitableSpace => Some(f.suitableSpace)
    case PurchaseLink => Some(f.purchaseLink)
    case RecommendedCombos => f.recommendedCombos
    case CustomImagePrompt => f.customImagePrompt
    case SeoKeywords => f.seoKeywords
  }

  /** The value of a field in a decoded autosave. */
  function GetSaved(p: SavedForm, k: Field): Option<string>
  {
    match k
    case SeedName => p.seedName
    case Price => p.price
    case StrongPoints => p.strongPoints
    case HarvestTime => p.harvestTime
    case SuitableSpace => p.suitableSpace
    case PurchaseLink => p.purchaseLink
    case RecommendedCombos => p.recommendedCombos
    case CustomImagePrompt => p.customImagePrompt
    case SeoKeywords => p.seoKeywords
  }

  predicate IsOptional(k: Field)
  {
    k == RecommendedCombos || k == CustomImagePrompt || k == SeoKeywords
  }

  /** Every optional field holds a string, so every field is defined. */
  predicate Normalised(f: SeedInput)
  {
    f.recommendedCombos.Some? && f.customImagePrompt.Some? && f.seoKeywords.Some?
  }

  /** The initial form: every field the empty string. */
  function EmptyForm(): (f: SeedInput)
    ensures Normalised(f)
    ensures forall k :: Get(f, k) == Some("")
  {
    SeedInput("", "", "", "", "", "", Some(""), Some(""), Some(""))
  }

  /** Syncing from a history entry's input: the six required fields are
      copied and each optional one keeps its value when defined and
      becomes the empty string otherwise. */
  function Normalise(iv: SeedInput): (f: SeedInput)
    ensures Normalised(f)
    ensures forall k :: !IsOptional(k) ==> Get(f, k) == Get(iv, k)
    ensures forall k :: IsOptional(k) ==> Get(f, k) == Some(OrEmpty(Get(iv, k)))
  {
    iv.(recommendedCombos := Some(OrEmpty(iv.recommendedCombos)),
        customImagePrompt := Some(OrEmpty(iv.customImagePrompt)),
        seoKeywords := Some(OrEmpty(iv.seoKeywords)))
  }

  /** The sync effect: runs only when initial values are supplied. */
  function SyncInitialValues(form: SeedInput, initialValues: Option<SeedInput>): (f: SeedInput)
    ensures initialValues.None? ==> f == form
    ensures initialValues.Some? ==> Normalised(f)
  {
    match initialValues
    case Some(iv) => Normalise(iv)
    case None => form
  }

  /** The saved object spread over the previous form: a field present in
      the saved object overrides the previous value, an absent required
      field keeps it, and each optional field is the saved value or the
      empty string. */
  function MergeSaved(prev: SeedInput, p: SavedForm): (f: SeedInput)
    ensures Normalised(f)
    ensures forall k :: !IsOptional(k) ==>
      Get(f, k) == if GetSaved(p, k).Some? then GetSaved(p, k) else Get(prev, k)
    ensures forall k :: IsOptional(k) ==> Get(f, k) == Some(OrEmpty(GetSaved(p, k)))
  {
    SeedInput(
      p.seedName.GetOr(prev.seedName),
      p.price.GetOr(prev.price),
      p.strongPoints.GetOr(prev.strongPoints),
      p.harvestTime.GetOr(prev.harvestTime),
      p.suitableSpace.GetOr(prev.suitableSpace),
      p.purchaseLink.GetOr(prev.purchaseLink),
      Some(OrEmpty(p.recommendedCombos)),
      Some(OrEmpty(p.customImagePrompt)),
      Some(OrEmpty(p.seoKeywords)))
  }

  /** The restore effect: skipped when initial values are supplied or the
      slot is absent or empty, and a parse failure leaves the form as it
      was. */
  function RestoreAutosave(form: SeedInput, initialValues: Option<SeedInput>,
                           slot: Option<string>, c: Codec<SavedForm>): (f: SeedInput)
    ensures initialValues.Some? || ReadSlot(slot, c).None? ==> f == form
  {
    if initialValues.Some? then form
    else match ReadSlot(slot, c)
      case None => form
      case Some(p) => MergeSaved(form, p)
  }

  /** The form on mount: the restore effect, then the sync effect, both
      starting from the empty defaults. */
  function Mount(initialValues: Option<SeedInput>, slot: Option<string>,
                 c: Codec<SavedForm>): (f: SeedInput)
    ensures Normalised(f)
  {
    SyncInitialValues(RestoreAutosave(EmptyForm(), initialValues, slot, c), initialValues)
  }

  /** An edit of the input named `k`: that field takes the typed value and
      the others are copied. */
  function SetField(f: SeedInput, k: Field, v: string): (r: SeedInput)
    ensures Get(r, k) == Some(v)
    ensures forall j :: j != k ==> Get(r, j) == Get(f, j)
    ensures Normalised(f) ==> Normalised(r)
  {
    match k
    case SeedName => f.(seedName := v)
    case Price => f.(price := v)
    case StrongPoints => f.(strongPoints := v)
    case HarvestTime => f.(harvestTime := v)
    case SuitableSpace => f.(suitableSpace := v)
    case PurchaseLink => f.(purchaseLink := v)
    case RecommendedCombos => f.(recommendedCombos := Some(v))
    case CustomImagePrompt => f.(customImagePrompt := Some(v))
    case SeoKeywords => f.(seoKeywords := Some(v))
  }

  /** The object the autosave serialises: every field of the form, with an
      undefined optional field left out, as the JSON encoder leaves it out. */
  function AsSaved(f: SeedInput): (p: SavedForm)
    ensures forall k :: GetSaved(p, k) == Get(f, k)
  {
    SavedForm(Some(f.seedName), Some(f.price), Some(f.strongPoints), Some(f.harvestTime),
              Some(f.suitableSpace), Some(f.purchaseLink),
              f.recommendedCombos, f.customImagePrompt, f.seoKeywords)
  }

  /** The debounced autosave write. `ok` says whether storage accepts it;
      the write has no error handling, so a refused one leaves the older
      value in the slot. */
  function Autosave(slot: Option<string>, f: SeedInput, ok: bool, c: Codec<SavedForm>): (r: Option<string>)
    ensures !ok ==> r == slot
    ensures ok && Faithful(c) ==> ReadSlot(r, c) == Some(AsSaved(f))
  {
    if ok then Some(c.encode(AsSaved(f))) else slot
  }

  /** The strings of the fixed sample (a heat-tolerant leafy green). */
  const SampleName: string := "Cải Ngọt Chịu Nhiệt"
  const SamplePrice: string := "15.000đ/gói 20g"
  const SampleStrongPoints: string := "Nảy mầm 99%, chịu nóng tốt, kháng sâu bệnh, lá to giòn ngọt"
  const SampleHarvestTime: string := "25-30 ngày"
  const SampleSpace: string := "Ban công nhỏ, thùng xốp, sân thượng nắng gắt"
  const SampleLink: string := "https://shopee.vn/hat-giong-cai-ngot"
  const SampleCombos: string := "Combo rau ăn lá: Cải Ngọt + Mồng Tơi + Rau Dền"
  const SampleKeywords: string := "hạt giống cải ngọt, trồng rau sạch tại nhà, nông sản sạch"

  /** The sample fill: a fixed example product. */
  function SampleForm(): (f: SeedInput)
    ensures Normalised(f)
    ensures forall k :: k != CustomImagePrompt ==> Get(f, k).Some? && Get(f, k).value != ""
    ensures f.customImagePrompt == Some("")
  {
    SeedInput(
      SampleName,
      SamplePrice,
      SampleStrongPoints,
      SampleHarvestTime,
      SampleSpace,
      SampleLink,
      Some(SampleCombos),
      Some(""),
      Some(SampleKeywords))
  }

  // ---- properties ----

  /** Normalising is idempotent, and it leaves a form unchanged exactly
      when that form already has every optional field defined. */
  lemma NormaliseIdempotent(f: SeedInput)
    ensures Normalise(Normalise(f)) == Normalise(f)
    ensures Normalise(f) == f <==> Normalised(f)
  {
  }

  /** With no initial values and a readable autosave, the mounted form is
      the saved fields over the empty defaults: a missing required field
      stays empty and each optional one is the saved value or empty. */
  lemma MountRestores(slot: Option<string>, c: Codec<SavedForm>)
    requires ReadSlot(slot, c).Some?
    ensures var f := Mount(None, slot, c);
      var p := ReadSlot(slot, c).value;
      forall k :: Get(f, k) == Some(OrEmpty(GetSaved(p, k)))
  {
    var f := Mount(None, slot, c);
    var p := ReadSlot(slot, c).value;
    forall k
      ensures Get(f, k) == Some(OrEmpty(GetSaved(p, k)))
    {
      if !IsOptional(k) {
        assert Get(EmptyForm(), k) == Some("");
      }
    }
  }

  /** With no initial values and nothing readable (no value, an empty
      value, or one that does not parse) the form keeps its defaults. */
  lemma MountWithoutAutosave(slot: Option<string>, c: Codec<SavedForm>)
    requires ReadSlot(slot, c).None?
    ensures Mount(None, slot, c) == EmptyForm()
  {
  }

  /** Supplied initial values win: the autosave is never consulted. */
  lemma MountWithInitialValues(iv: SeedInput, slot: Option<string>, c: Codec<SavedForm>)
    ensures Mount(Some(iv), slot, c) == Normalise(iv)
  {
  }

  /** An accepted autosave write followed by a new mount restores the form:
      exactly when every optional field was defined, and otherwise up to
      turning the undefined ones into empty strings. A refused write leaves
      the next mount showing what the older value gave. */
  lemma AutosaveRoundTrip(prior: Option<string>, f: SeedInput, c: Codec<SavedForm>)
    requires Faithful(c)
    ensures Mount(None, Autosave(prior, f, true, c), c) == Normalise(f)
    ensures Normalised(f) ==> Mount(None, Autosave(prior, f, true, c), c) == f
    ensures Mount(None, Autosave(prior, f, false, c), c) == Mount(None, prior, c)
  {
    var m := Mount(None, Autosave(prior, f, true, c), c);
    MountRestores(Autosave(prior, f, true, c), c);
    forall k
      ensures Get(m, k) == Get(Normalise(f), k)
    {
    }
    GetDeterminesForm(m, Normalise(f));
    NormaliseIdempotent(f);
  }

  /** Two forms that agree on every field are equal. */
  lemma GetDeterminesForm(a: SeedInput, b: SeedInput)
    requires forall k :: Get(a, k) == Get(b, k)
    ensures a == b
  {
    assert Get(a, SeedName) == Get(b, SeedName);
    assert Get(a, Price) == Get(b, Price);
    assert Get(a, StrongPoints) == Get(b, StrongPoints);
    assert Get(a, HarvestTime) == Get(b, HarvestTime);
    assert Get(a, SuitableSpace) == Get(b, SuitableSpace);
    assert Get(a, PurchaseLink) == Get(b, PurchaseLink);
    assert Get(a, RecommendedCombos) == Get(b, RecommendedCombos);
    assert Get(a, CustomImagePrompt) == Get(b, CustomImagePrompt);
    assert Get(a, SeoKeywords) == Get(b, SeoKeywords);
  }

  /** Editing a field to the value it already holds changes nothing, and
      a later edit of the same field overrides an earlier one. */
  lemma SetFieldLaws(f: SeedInput, k: Field, v: string, w: string)
    ensures Get(f, k) == Some(v) ==> SetField(f, k, v) == f
    ensures SetField(SetField(f, k, v), k, w) == SetField(f, k, w)
  {
  }

  /** Something that happens to the form after mount. */
  datatype FormEvent =
    | Change(field: Field, value: string)  // handleChange
    | SampleFill                           // handleSampleFill
    | Select(input: SeedInput, changed: bool)
      // a history entry's input is passed as initial values; `changed` says
      // whether it is a different object from the last one, since the sync
      // effect runs only when its dependency changes

  /** The handlers and the sync effect as transitions of the form. */
  function Apply(f: SeedInput, e: FormEvent): (r: SeedInput)
    ensures Normalised(f) ==> Normalised(r)
    ensures e.Select? && !e.changed ==> r == f
  {
    match e
    case Change(k, v) => SetField(f, k, v)
    case SampleFill => SampleForm()
    case Select(iv, changed) => if changed then SyncInitialValues(f, Some(iv)) else f
  }

  /** A history selection syncs the form only when a new object is passed:
      then the required fields are the entry's and the optional ones are
      defined; passing the same object again keeps any edits made since. */
  lemma SelectSyncsOnlyOnChange(f: SeedInput, iv: SeedInput, changed: bool)
    ensures changed ==> Apply(f, Select(iv, changed)) == Normalise(iv)
    ensures !changed ==> Apply(f, Select(iv, changed)) == f
  {
  }

  function ApplyAll(f: SeedInput, es: seq<FormEvent>): SeedInput
    decreases |es|
  {
    if es == [] then f else ApplyAll(Apply(f, es[0]), es[1..])
  }

  /** From mount onwards the three optional fields are never undefined. */
  lemma {:induction false} EventsKeepNormalised(f: SeedInput, es: seq<FormEvent>)
    requires Normalised(f)
    ensures Normalised(ApplyAll(f, es))
    decreases |es|
  {
    if es != [] {
      EventsKeepNormalised(Apply(f, es[0]), es[1..]);
    }
  }

  /** So whatever the form autosaves after mount and any events, once
      storage accepts the write, comes back unchanged on the next mount. */
  lemma {:induction false} EventsThenRemount(initialValues: Option<SeedInput>, slot: Option<string>,
                          es: seq<FormEvent>, c: Codec<SavedForm>)
    requires Faithful(c)
    ensures Mount(None, Autosave(slot, ApplyAll(Mount(initialValues, slot, c), es), true, c), c)
      == ApplyAll(Mount(initialValues, slot, c), es)
  {
    var f := ApplyAll(Mount(initialValues, slot, c), es);
    EventsKeepNormalised(Mount(initialValues, slot, c), es);
    AutosaveRoundTrip(slot, f, c);
  }
}
