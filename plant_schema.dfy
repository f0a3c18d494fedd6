/** The plant document schema: which fields are required, the six growth
    forms a habit may take, which strings are trimmed, which fields default
    to the empty string, and the two timestamps every saved document
    carries.  `Normalize` is what a save does to the submitted values before
    the document is stored (setters, defaults, then validation); `Valid` is
    the invariant every stored plant satisfies. */
module PlantSchema {
  import opened Wrappers
  import opened Text

  /** The growth form of a plant (the `habit` enum). */
  datatype Habit = Herb | Shrub | Tree | Aquatic | Grass | Climber

  const AllHabits: seq<Habit> := [Herb, Shrub, Tree, Aquatic, Grass, Climber]

  function HabitName(h: Habit): string {
    match h
    case Herb => "Herb"
    case Shrub => "Shrub"
    case Tree => "Tree"
    case Aquatic => "Aquatic"
    case Grass => "Grass"
    case Climber => "Climber"
  }

  /** The enum check: exactly the six names are accepted, case-sensitively
      and without trimming. */
  function ParseHabit(s: string): (r: Option<Habit>)
    ensures r.Some? ==> HabitName(r.value) == s
    ensures r.None? <==> forall h: Habit :: HabitName(h) != s
  {
    if s == "Herb" then Some(Herb)
    else if s == "Shrub" then Some(Shrub)
    else if s == "Tree" then Some(Tree)
    else if s == "Aquatic" then Some(Aquatic)
    else if s == "Grass" then Some(Grass)
    else if s == "Climber" then Some(Climber)
    else None
  }

  type AdminId = nat
  type PlantId = nat

  /** A stored plant document. `id` is the document's `_id`. */
  datatype Plant = Plant(
    id: PlantId,
    localName: string,
    scientificName: string,
    familyName: string,
    habit: Habit,
    uses: seq<string>,
    image: string,
    location: string,
    mapLink: string,
    description: string,
    createdBy: Option<AdminId>,
    createdAt: nat,
    updatedAt: nat)

  /** The values handed to the model before a save; `None` is a field left
      undefined. */
  datatype Draft = Draft(
    localName: Option<string>,
    scientificName: Option<string>,
    familyName: Option<string>,
    habit: Option<string>,
    uses: Option<seq<string>>,
    image: Option<string>,
    location: Option<string>,
    mapLink: Option<string>,
    description: Option<string>,
    createdBy: Option<AdminId>)

  /** One entry of a validation error: a required path missing, or a value
      outside an enum. */
  datatype FieldError = Required(path: string) | NotInEnum(path: string, value: string)

  /** The invariant of a stored plant. The habit is one of the six by its
      type. */
  predicate Valid(p: Plant) {
    && p.localName != "" && IsTrimmed(p.localName)
    && p.scientificName != "" && IsTrimmed(p.scientificName)
    && p.familyName != "" && IsTrimmed(p.familyName)
    && p.location != ""
    && (forall i :: 0 <= i < |p.uses| ==> IsTrimmed(p.uses[i]))
  }

  /** A required string passes when it is defined and not empty. */
  predicate Present(v: Option<string>) {
    v.Some? && v.value != ""
  }

  /** The `trim: true` setter. */
  function TrimField(v: Option<string>): Option<string> {
    match v
    case None => None
    case Some(s) => Some(Trim(s))
  }

  /** The `default: ''` rule. */
  function OrEmpty(v: Option<string>): string {
    if v.Some? then v.value else ""
  }

  function RequiredError(path: string, v: Option<string>): seq<FieldError> {
    if Present(v) then [] else [Required(path)]
  }

  function HabitError(v: Option<string>): seq<FieldError> {
    if !Present(v) then [Required("habit")]
    else if ParseHabit(v.value).None? then [NotInEnum("habit", v.value)]
    else []
  }

  /** Validation errors in schema order, after the setters have run. */
  function Errors(d: Draft): seq<FieldError> {
    RequiredError("localName", TrimField(d.localName))
    + RequiredError("scientificName", TrimField(d.scientificName))
    + RequiredError("familyName", TrimField(d.familyName))
    + HabitError(d.habit)
    + RequiredError("location", d.location)
  }

  /** The required checks pass exactly when the three names are defined and
      not blank, the habit is one of the six names and the location is a
      non-empty string. */
  predicate Acceptable(d: Draft) {
    && d.localName.Some? && !AllWhitespace(d.localName.value)
    && d.scientificName.Some? && !AllWhitespace(d.scientificName.value)
    && d.familyName.Some? && !AllWhitespace(d.familyName.value)
    && d.habit.Some? && d.habit.value in {"Herb", "Shrub", "Tree", "Aquatic", "Grass", "Climber"}
    && d.location.Some? && d.location.value != ""
  }

  /** Validation reports no error exactly when the draft is acceptable. */
  lemma ErrorsEmpty(d: Draft)
    ensures Errors(d) == [] <==> Acceptable(d)
  {
    if d.habit.Some? && d.habit.value != "" {
      assert ParseHabit(d.habit.value).Some? <==>
        d.habit.value in {"Herb", "Shrub", "Tree", "Aquatic", "Grass", "Climber"};
    }
  }

  /** Saving a draft: trim the trimmed paths, fill the defaults, stamp the
      timestamps and validate. */
  function Normalize(d: Draft, id: PlantId, createdAt: nat, updatedAt: nat): (r: Result<Plant, seq<FieldError>>)
    ensures r.Ok? <==> Acceptable(d)
    ensures r.Err? ==> r.error != []
    ensures r.Ok? ==> Valid(r.value)
    ensures r.Ok? ==>
      && r.value.id == id && r.value.createdAt == createdAt && r.value.updatedAt == updatedAt
      && r.value.localName == Trim(d.localName.value)
      && r.value.scientificName == Trim(d.scientificName.value)
      && r.value.familyName == Trim(d.familyName.value)
      && HabitName(r.value.habit) == d.habit.value
      && r.value.location == d.location.value
      && r.value.uses == (if d.uses.Some? then TrimAll(d.uses.value) else [])
      && r.value.image == OrEmpty(d.image)
      && r.value.mapLink == OrEmpty(d.mapLink)
      && r.value.description == OrEmpty(d.description)
      && r.value.createdBy == d.createdBy
  {
    ErrorsEmpty(d);
    var errs := Errors(d);
    if errs != [] then Err(errs)
    else
      Ok(Plant(
        id,
        Trim(d.localName.value),
        Trim(d.scientificName.value),
        Trim(d.familyName.value),
        ParseHabit(d.habit.value).value,
        if d.uses.Some? then TrimAll(d.uses.value) else [],
        OrEmpty(d.image),
        d.location.value,
        OrEmpty(d.mapLink),
        OrEmpty(d.description),
        d.createdBy,
        createdAt,
        updatedAt))
  }

  /** A habit outside the enum is reported as such and the save fails. */
  lemma BadHabitRejected(d: Draft, id: PlantId, createdAt: nat, updatedAt: nat)
    requires d.habit.Some? && d.habit.value != "" && ParseHabit(d.habit.value).None?
    ensures Normalize(d, id, createdAt, updatedAt).Err?
    ensures NotInEnum("habit", d.habit.value) in Normalize(d, id, createdAt, updatedAt).error
  {
    var pre := RequiredError("localName", TrimField(d.localName))
      + RequiredError("scientificName", TrimField(d.scientificName))
      + RequiredError("familyName", TrimField(d.familyName));
    var errs := Errors(d);
    assert errs == pre + [NotInEnum("habit", d.habit.value)] + RequiredError("location", d.location);
    assert errs[|pre|] == NotInEnum("habit", d.habit.value);
  }

  /** The values of a stored plant, as handed back to the model on a
      re-save. */
  function DraftOf(p: Plant): Draft {
    Draft(Some(p.localName), Some(p.scientificName), Some(p.familyName),
          Some(HabitName(p.habit)), Some(p.uses), Some(p.image), Some(p.location),
          Some(p.mapLink), Some(p.description), p.createdBy)
  }

  /** Saving a valid plant again with its own values reproduces it: the
      setters and defaults are idempotent on stored data. */
  lemma NormalizeStored(p: Plant)
    requires Valid(p)
    ensures Normalize(DraftOf(p), p.id, p.createdAt, p.updatedAt) == Ok(p)
  {
    TrimAllTrimmed(p.uses);
    assert ParseHabit(HabitName(p.habit)) == Some(p.habit);
  }
}
