/** The non-visual logic of breakruptcy-client/src/components/TimerConfig.tsx:
    the presets, the clamping of typed time fields, preset application, and
    the save gate that validates both banks before handing a configuration
    to the caller. The helpers `validateTimeInput`, `timeInputToMilliseconds`
    and `millisecondsToTimeInput` are imported by the component but their
    bodies are not part of this model: they appear as function parameters. */
module ConfigForm {
  import opened Wrappers
  import opened TimerTypes
  import opened TrimText

  /** A key of `TimeInput`. */
  datatype Field = Hours | Minutes | Seconds

  /** One entry of `PRESETS`. */
  datatype Preset = Preset(name: string, bank1: TimeInput, bank2: TimeInput)

  /** The field-level error messages shown under each bank; `None` is
      `undefined`. */
  datatype Errors = Errors(bank1: Option<string>, bank2: Option<string>)

  /** The component's `useState` hooks. */
  datatype FormState = FormState(
    bank1Time: TimeInput,
    bank2Time: TimeInput,
    bank1Label: string,
    bank2Label: string,
    errors: Errors)

  /** What pressing "Save Configuration" produces: the form afterwards and
      the configuration passed to `onSave`, if it was called. */
  datatype SaveStep = SaveStep(form: FormState, saved: Option<TimerConfig>)

  const NoErrors: Errors := Errors(None, None)

  const Presets: seq<Preset> := [
    Preset("Tim's Workday (4 Hr/4 Hr)", TimeInput(4, 0, 0), TimeInput(4, 0, 0)),
    Preset("Pomodoro (25/5)", TimeInput(0, 25, 0), TimeInput(0, 5, 0)),
    Preset("Work Block (50/10)", TimeInput(0, 50, 0), TimeInput(0, 10, 0)),
    Preset("Deep Work (90/15)", TimeInput(1, 30, 0), TimeInput(0, 15, 0)),
    Preset("Quick Sprint (15/3)", TimeInput(0, 15, 0), TimeInput(0, 3, 0))
  ]

  function FieldOf(t: TimeInput, f: Field): int
  {
    match f
    case Hours => t.hours
    case Minutes => t.minutes
    case Seconds => t.seconds
  }

  /** The largest value a field accepts: 99 hours, 59 minutes or seconds. */
  function MaxFor(f: Field): int
  {
    if f == Hours then 99 else 59
  }

  /** Every field within the range the form enforces. */
  predicate InRange(t: TimeInput)
  {
    && 0 <= t.hours <= MaxFor(Hours)
    && 0 <= t.minutes <= MaxFor(Minutes)
    && 0 <= t.seconds <= MaxFor(Seconds)
  }

  predicate IsZero(t: TimeInput)
  {
    t.hours == 0 && t.minutes == 0 && t.seconds == 0
  }

  /** `Math.min(Math.max(0, parseInt(value) || 0), maxValue)`. `parsed` is
      the integer `parseInt` read, `None` for `NaN`. The value stored is the
      typed number when it is in range, the bound it overshoots otherwise,
      and 0 for anything negative or unreadable. */
  function ClampField(f: Field, parsed: Option<int>): (v: int)
    ensures 0 <= v <= MaxFor(f)
    ensures parsed.Some? && 0 <= parsed.value <= MaxFor(f) ==> v == parsed.value
    ensures parsed.Some? && parsed.value > MaxFor(f) ==> v == MaxFor(f)
    ensures parsed.None? || parsed.value <= 0 ==> v == 0
  {
    var numValue := match parsed { case Some(n) => if n > 0 then n else 0 case None => 0 };
    var maxValue := MaxFor(f);
    if numValue < maxValue then numValue else maxValue
  }

  /** `handleTimeChange` for one bank: the named field takes the clamped
      value and the other two fields are kept. */
  function HandleTimeChange(t: TimeInput, f: Field, parsed: Option<int>): (r: TimeInput)
    ensures FieldOf(r, f) == ClampField(f, parsed)
    ensures forall g :: g != f ==> FieldOf(r, g) == FieldOf(t, g)
    ensures InRange(t) ==> InRange(r)
  {
    var v := ClampField(f, parsed);
    match f
    case Hours => t.(hours := v)
    case Minutes => t.(minutes := v)
    case Seconds => t.(seconds := v)
  }

  function TimeOf(form: FormState, k: BankKey): TimeInput
  {
    match k
    case Bank1 => form.bank1Time
    case Bank2 => form.bank2Time
  }

  /** A field edit on the inputs of bank `k`: only that bank's time changes. */
  function ChangeTime(form: FormState, k: BankKey, f: Field, parsed: Option<int>): (r: FormState)
    ensures TimeOf(r, k) == HandleTimeChange(TimeOf(form, k), f, parsed)
    ensures TimeOf(r, Other(k)) == TimeOf(form, Other(k))
    ensures r.bank1Label == form.bank1Label && r.bank2Label == form.bank2Label
    ensures r.errors == form.errors
  {
    var t := HandleTimeChange(TimeOf(form, k), f, parsed);
    match k
    case Bank1 => form.(bank1Time := t)
    case Bank2 => form.(bank2Time := t)
  }

  /** The form as the component first renders it for `config`. */
  function InitialForm(config: TimerConfig, msToInput: int -> TimeInput): (r: FormState)
    ensures r.bank1Time == msToInput(config.bank1Duration)
    ensures r.bank2Time == msToInput(config.bank2Duration)
    ensures r.bank1Label == config.bank1Label && r.bank2Label == config.bank2Label
    ensures r.errors == NoErrors
  {
    FormState(
      msToInput(config.bank1Duration),
      msToInput(config.bank2Duration),
      config.bank1Label,
      config.bank2Label,
      NoErrors)
  }

  /** `applyPreset`: both bank times become the preset's and the errors are
      cleared; the labels stay as typed. */
  function ApplyPreset(form: FormState, p: Preset): (r: FormState)
    ensures r.bank1Time == p.bank1 && r.bank2Time == p.bank2
    ensures r.errors == NoErrors
    ensures r.bank1Label == form.bank1Label && r.bank2Label == form.bank2Label
  {
    form.(bank1Time := p.bank1, bank2Time := p.bank2, errors := NoErrors)
  }

  /** JavaScript truthiness of a validation result: `null`, `undefined` and
      the empty string are falsy. */
  predicate Truthy(e: Option<string>)
  {
    e.Some? && e.value != ""
  }

  /** `label.trim() || fallback`: the typed label without its surrounding
      white space, or the fallback when nothing else is left. When the
      fallback has no white space at either end, the result is never empty
      and is already trimmed. */
  function LabelOrDefault(typed: string, fallback: string): (r: string)
    ensures AllWhiteSpace(typed) ==> r == fallback
    ensures !AllWhiteSpace(typed) ==> r == Trim(typed) && r != []
    ensures EdgesNotWhiteSpace(fallback) ==> r != [] && Trim(r) == r
  {
    var trimmed := Trim(typed);
    var r := if trimmed != [] then trimmed else fallback;
    LabelChoice(typed, fallback, trimmed, r);
    r
  }

  /** The facts about trimming that `LabelOrDefault` rests on. */
  lemma LabelChoice(typed: string, fallback: string, trimmed: string, r: string)
    requires trimmed == Trim(typed)
    requires r == if trimmed != [] then trimmed else fallback
    ensures AllWhiteSpace(typed) ==> r == fallback
    ensures !AllWhiteSpace(typed) ==> r == Trim(typed) && r != []
    ensures EdgesNotWhiteSpace(fallback) ==> r != [] && Trim(r) == r
  {
    TrimEmptyIff(typed);
    TrimIdempotent(typed);
    TrimKeepsTrimmed(fallback);
  }

  /** The `newConfig` literal of `handleSave`: the two durations converted
      by `toMs` (standing for `timeInputToMilliseconds`), and the trimmed
      labels with "Work" and "Break" standing in for blank ones. Saved
      labels are never empty and never start or end with white space. */
  function NewConfig(form: FormState, toMs: TimeInput -> int): (c: TimerConfig)
    ensures c.bank1Duration == toMs(form.bank1Time) && c.bank2Duration == toMs(form.bank2Time)
    ensures c.bank1Label == LabelOrDefault(form.bank1Label, "Work")
    ensures c.bank2Label == LabelOrDefault(form.bank2Label, "Break")
    ensures c.bank1Label != [] && Trim(c.bank1Label) == c.bank1Label
    ensures c.bank2Label != [] && Trim(c.bank2Label) == c.bank2Label
  {
    assert EdgesNotWhiteSpace("Work") && EdgesNotWhiteSpace("Break");
    TimerConfig(
      toMs(form.bank1Time),
      toMs(form.bank2Time),
      LabelOrDefault(form.bank1Label, "Work"),
      LabelOrDefault(form.bank2Label, "Break"))
  }

  /** `handleSave`, with `validate` standing for `validateTimeInput`: when
      either bank's validation yields a truthy message, both messages are
      recorded (a falsy one as no message) and nothing is saved; otherwise
      `onSave` receives the new configuration and the form is left as it
      was. */
  function HandleSave(form: FormState, validate: TimeInput -> Option<string>, toMs: TimeInput -> int): (r: SaveStep)
    ensures r.saved.Some? <==> !Truthy(validate(form.bank1Time)) && !Truthy(validate(form.bank2Time))
    ensures r.saved.Some? ==> r.form == form && r.saved.value == NewConfig(form, toMs)
    ensures r.saved.None? ==>
      && r.form.bank1Time == form.bank1Time && r.form.bank2Time == form.bank2Time
      && r.form.bank1Label == form.bank1Label && r.form.bank2Label == form.bank2Label
      && (r.form.errors.bank1.Some? <==> Truthy(validate(form.bank1Time)))
      && (r.form.errors.bank2.Some? <==> Truthy(validate(form.bank2Time)))
      && (Truthy(validate(form.bank1Time)) ==> r.form.errors.bank1 == validate(form.bank1Time))
      && (Truthy(validate(form.bank2Time)) ==> r.form.errors.bank2 == validate(form.bank2Time))
  {
    var bank1Error := validate(form.bank1Time);
    var bank2Error := validate(form.bank2Time);
    if Truthy(bank1Error) || Truthy(bank2Error) then
      SaveStep(
        form.(errors := Errors(
          if Truthy(bank1Error) then bank1Error else None,
          if Truthy(bank2Error) then bank2Error else None)),
        None)
    else
      SaveStep(form, Some(NewConfig(form, toMs)))
  }

  /** Every preset lies within the ranges `handleTimeChange` enforces and
      none is an empty duration; re-typing any of its fields leaves it as
      it is. */
  lemma PresetsWellFormed()
    ensures forall i :: 0 <= i < |Presets| ==>
      && InRange(Presets[i].bank1) && InRange(Presets[i].bank2)
      && !IsZero(Presets[i].bank1) && !IsZero(Presets[i].bank2)
    ensures forall i, f :: 0 <= i < |Presets| ==>
      && HandleTimeChange(Presets[i].bank1, f, Some(FieldOf(Presets[i].bank1, f))) == Presets[i].bank1
      && HandleTimeChange(Presets[i].bank2, f, Some(FieldOf(Presets[i].bank2, f))) == Presets[i].bank2
  {
    forall i, f | 0 <= i < |Presets|
      ensures HandleTimeChange(Presets[i].bank1, f, Some(FieldOf(Presets[i].bank1, f))) == Presets[i].bank1
      ensures HandleTimeChange(Presets[i].bank2, f, Some(FieldOf(Presets[i].bank2, f))) == Presets[i].bank2
    {
      ClampedInRangeIsKept(Presets[i].bank1, f);
      ClampedInRangeIsKept(Presets[i].bank2, f);
    }
  }

  /** Re-entering a field's own in-range value is a no-op. */
  lemma ClampedInRangeIsKept(t: TimeInput, f: Field)
    requires InRange(t)
    ensures HandleTimeChange(t, f, Some(FieldOf(t, f))) == t
  {
  }
}
