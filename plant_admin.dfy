/** The administrator's catalog endpoints: create, update and delete a plant,
    and the dashboard summary.  The collection is a repository object whose
    methods change it in place; the decisions they take (how `uses` is read,
    how an update merges into the stored plant, which image file is
    released) are functions beside it. */
module PlantAdmin {
  import opened Wrappers
  import opened Text
  import JsonArray
  import opened PlantSchema
  import opened PlantQueries

  // ---------------------------------------------------------------------
  // The request body

  /** The `uses` value of a request: not sent, sent as a string (a
      multipart form), or sent as an array (a JSON body). */
  datatype UsesField = Absent | AsText(text: string) | AsList(items: seq<string>)

  /** The fields of a create or update request; `None` is a field not sent. */
  datatype PlantBody = PlantBody(
    localName: Option<string>,
    scientificName: Option<string>,
    familyName: Option<string>,
    habit: Option<string>,
    uses: UsesField,
    description: Option<string>,
    location: Option<string>,
    mapLink: Option<string>)

  /** Reading `uses`: a string is read as JSON first and, when that fails,
      split on commas with every piece trimmed; an array passes through. */
  function ParseUses(u: UsesField): (r: Option<seq<string>>)
    ensures r.None? <==> u.Absent?
    ensures u.AsList? ==> r == Some(u.items)
    ensures u.AsText? && JsonArray.Parse(u.text).Some? ==> r == JsonArray.Parse(u.text)
    ensures u.AsText? && JsonArray.Parse(u.text).None? ==>
      && |r.value| == multiset(u.text)[','] + 1
      && forall i :: 0 <= i < |r.value| ==> IsTrimmed(r.value[i]) && ',' !in r.value[i]
    ensures u.AsText? && JsonArray.Parse(u.text).None? ==> r == Some(TrimAll(Split(u.text, ',')))
  {
    match u
    case Absent => None
    case AsList(items) => Some(items)
    case AsText(text) =>
      match JsonArray.Parse(text)
      case Some(items) => Some(items)
      case None =>
        var pieces := Split(text, ',');
        SplitPieces(text, ',');
        var r := TrimAll(pieces);
        assert forall i :: 0 <= i < |r| ==> ',' !in r[i] by {
          forall i | 0 <= i < |r| ensures ',' !in r[i] {
            TrimKeepsOut(pieces[i], ',');
          }
        }
        Some(r)
  }

  /** Trimming only removes characters. */
  lemma TrimKeepsOut(s: string, c: char)
    requires c !in s
    ensures c !in Trim(s)
  {
    var t := s[LeadingSpace(s)..];
    assert forall k :: 0 <= k < |t| ==> t[k] in s by {
      forall k | 0 <= k < |t| ensures t[k] in s {
        assert t[k] == s[LeadingSpace(s) + k];
      }
    }
    var u := t[..|t| - TrailingSpace(t)];
    assert forall k :: 0 <= k < |u| ==> u[k] in s by {
      forall k | 0 <= k < |u| ensures u[k] in s {
        assert u[k] == t[k];
      }
    }
    assert Trim(s) == u;
  }

  /** An empty `uses` string is not JSON, and splits into one empty piece. */
  lemma EmptyUses()
    ensures ParseUses(AsText("")) == Some([""])
  {
    assert JsonArray.Parse("") == None;
    assert Split("", ',') == [""];
    assert TrimAll([""]) == [""];
  }

  /** What the admin form sends (`JSON.stringify` of the list) is read back
      as the same list. */
  lemma UsesRoundTrip(xs: seq<string>)
    requires JsonArray.AllPlain(xs)
    ensures ParseUses(AsText(JsonArray.Encode(xs))) == Some(xs)
  {
    JsonArray.ParseEncode(xs);
  }

  /** In the comma fallback nothing but the whitespace around the pieces is
      lost: without such whitespace the pieces join back to the text. */
  lemma UsesFallbackLossless(text: string)
    requires JsonArray.Parse(text).None?
    requires forall i :: 0 <= i < |Split(text, ',')| ==> IsTrimmed(Split(text, ',')[i])
    ensures Join(ParseUses(AsText(text)).value, ',') == text
  {
    TrimAllTrimmed(Split(text, ','));
    JoinSplit(text, ',');
  }

  // ---------------------------------------------------------------------
  // Create

  /** The document handed to the model by a create request. */
  function CreateDraft(b: PlantBody, admin: AdminId, upload: Option<string>): Draft {
    Draft(b.localName, b.scientificName, b.familyName, b.habit, ParseUses(b.uses),
          upload, b.location, b.mapLink, b.description, Some(admin))
  }

  /** The plant a create request saves, or the validation errors that make
      the save fail. */
  function CreateRecord(b: PlantBody, admin: AdminId, upload: Option<string>, id: PlantId, now: nat): (r: Result<Plant, seq<FieldError>>)
    ensures r.Ok? <==>
      && b.localName.Some? && !AllWhitespace(b.localName.value)
      && b.scientificName.Some? && !AllWhitespace(b.scientificName.value)
      && b.familyName.Some? && !AllWhitespace(b.familyName.value)
      && b.habit.Some? && ParseHabit(b.habit.value).Some?
      && b.location.Some? && b.location.value != ""
    ensures r.Err? ==> r.error != []
    ensures r.Ok? ==>
      && PlantSchema.Valid(r.value)
      && r.value.id == id
      && r.value.createdBy == Some(admin)
      && r.value.localName == Trim(b.localName.value)
      && r.value.scientificName == Trim(b.scientificName.value)
      && r.value.familyName == Trim(b.familyName.value)
      && HabitName(r.value.habit) == b.habit.value
      && r.value.location == b.location.value
      && r.value.image == (if upload.Some? then upload.value else "")
      && r.value.createdAt == now && r.value.updatedAt == now
      && r.value.uses == (if b.uses.Absent? then [] else TrimAll(ParseUses(b.uses).value))
      && r.value.description == OrEmpty(b.description)
      && r.value.mapLink == OrEmpty(b.mapLink)
  {
    Normalize(CreateDraft(b, admin, upload), id, now, now)
  }

  /** A habit outside the enum makes the create fail. */
  lemma CreateBadHabit(b: PlantBody, admin: AdminId, upload: Option<string>, id: PlantId, now: nat)
    requires b.habit.Some? && b.habit.value != "" && ParseHabit(b.habit.value).None?
    ensures CreateRecord(b, admin, upload, id, now).Err?
    ensures NotInEnum("habit", b.habit.value) in CreateRecord(b, admin, upload, id, now).error
  {
    BadHabitRejected(CreateDraft(b, admin, upload), id, now, now);
  }

  // ---------------------------------------------------------------------
  // Update

  /** `supplied || prior` for a string field. */
  function OrPrior(supplied: Option<string>, prior: string): string {
    if Truthy(supplied) then supplied.value else prior
  }

  /** The document after the eight assignments and the image replacement,
      before the save. */
  function MergeDraft(p: Plant, b: PlantBody, upload: Option<string>): Draft {
    Draft(
      Some(OrPrior(b.localName, p.localName)),
      Some(OrPrior(b.scientificName, p.scientificName)),
      Some(OrPrior(b.familyName, p.familyName)),
      Some(OrPrior(b.habit, HabitName(p.habit))),
      Some(if b.uses.Absent? then p.uses else ParseUses(b.uses).value),
      Some(if upload.Some? then upload.value else p.image),
      Some(OrPrior(b.location, p.location)),
      Some(OrPrior(b.mapLink, p.mapLink)),
      Some(OrPrior(b.description, p.description)),
      p.createdBy)
  }

  /** The save of the merged document. */
  function SaveMerged(p: Plant, b: PlantBody, upload: Option<string>): Result<Plant, seq<FieldError>> {
    Normalize(MergeDraft(p, b, upload), p.id, p.createdAt, p.updatedAt)
  }

  /** The plant an update saves, or the validation errors that make the save
      fail. The saved plant keeps its identity and creation data, takes the
      new file as its image, and its `updatedAt` moves only when a stored
      value changes. */
  function ApplyUpdate(p: Plant, b: PlantBody, upload: Option<string>, now: nat): (r: Result<Plant, seq<FieldError>>)
    ensures r.Err? ==> r.error != []
    ensures r.Ok? ==>
      && PlantSchema.Valid(r.value)
      && r.value.id == p.id && r.value.createdAt == p.createdAt && r.value.createdBy == p.createdBy
      && r.value.image == (if upload.Some? then upload.value else p.image)
      && r.value.updatedAt == (if r.value.(updatedAt := p.updatedAt) == p then p.updatedAt else now)
  {
    match SaveMerged(p, b, upload)
    case Err(e) => Err(e)
    case Ok(q) => Ok(if q == p then p else q.(updatedAt := now))
  }

  /** A required name keeps passing when the update does not send a
      truthy value, and passes with a sent one exactly when it is not
      blank. */
  lemma NameAccepted(supplied: Option<string>, prior: string)
    requires prior != "" && IsTrimmed(prior)
    ensures !AllWhitespace(OrPrior(supplied, prior)) <==> (!Truthy(supplied) || !AllWhitespace(supplied.value))
  {
  }

  /** The merged habit is in the enum unless a truthy habit outside it is
      sent. */
  lemma HabitAccepted(supplied: Option<string>, prior: Habit)
    ensures OrPrior(supplied, HabitName(prior)) in {"Herb", "Shrub", "Tree", "Aquatic", "Grass", "Climber"}
      <==> (!Truthy(supplied) || ParseHabit(supplied.value).Some?)
  {
    var s := OrPrior(supplied, HabitName(prior));
    assert s in {"Herb", "Shrub", "Tree", "Aquatic", "Grass", "Climber"} <==> ParseHabit(s).Some?;
  }

  /** An update of a stored plant fails exactly when a truthy name is blank
      or a truthy habit is outside the enum. */
  lemma UpdateAccepted(p: Plant, b: PlantBody, upload: Option<string>, now: nat)
    requires PlantSchema.Valid(p)
    ensures ApplyUpdate(p, b, upload, now).Ok? <==>
      && (!Truthy(b.localName) || !AllWhitespace(b.localName.value))
      && (!Truthy(b.scientificName) || !AllWhitespace(b.scientificName.value))
      && (!Truthy(b.familyName) || !AllWhitespace(b.familyName.value))
      && (!Truthy(b.habit) || ParseHabit(b.habit.value).Some?)
  {
    NameAccepted(b.localName, p.localName);
    NameAccepted(b.scientificName, p.scientificName);
    NameAccepted(b.familyName, p.familyName);
    HabitAccepted(b.habit, p.habit);
    var d := MergeDraft(p, b, upload);
    assert d.location.value != "";
    assert ApplyUpdate(p, b, upload, now).Ok? <==> SaveMerged(p, b, upload).Ok?;
  }

  /** A name field after the merge and the trim setter. */
  lemma NameMerged(supplied: Option<string>, prior: string)
    requires IsTrimmed(prior)
    ensures Trim(OrPrior(supplied, prior)) == if Truthy(supplied) then Trim(supplied.value) else prior
  {
  }

  /** Each of the eight fields of an updated plant takes the supplied value
      when it is truthy (trimmed where the schema trims) and keeps its prior
      value otherwise; `uses` is replaced whenever it is sent. */
  lemma UpdateMerges(p: Plant, b: PlantBody, upload: Option<string>, now: nat)
    requires PlantSchema.Valid(p) && ApplyUpdate(p, b, upload, now).Ok?
    ensures var q := ApplyUpdate(p, b, upload, now).value;
      && q.localName == (if Truthy(b.localName) then Trim(b.localName.value) else p.localName)
      && q.scientificName == (if Truthy(b.scientificName) then Trim(b.scientificName.value) else p.scientificName)
      && q.familyName == (if Truthy(b.familyName) then Trim(b.familyName.value) else p.familyName)
      && (if Truthy(b.habit) then HabitName(q.habit) == b.habit.value else q.habit == p.habit)
      && q.uses == (if b.uses.Absent? then p.uses else TrimAll(ParseUses(b.uses).value))
      && q.description == OrPrior(b.description, p.description)
      && q.location == OrPrior(b.location, p.location)
      && q.mapLink == OrPrior(b.mapLink, p.mapLink)
  {
    NamesMerged(p, b, upload, now);
    OthersMerged(p, b, upload, now);
  }

  /** The saved plant is the saved document with only its update time
      possibly moved. */
  lemma SavedAsMerged(p: Plant, b: PlantBody, upload: Option<string>, now: nat)
    requires ApplyUpdate(p, b, upload, now).Ok?
    ensures SaveMerged(p, b, upload).Ok?
    ensures ApplyUpdate(p, b, upload, now).value.(updatedAt := SaveMerged(p, b, upload).value.updatedAt)
      == SaveMerged(p, b, upload).value
  {
  }

  /** The three names and the habit of an updated plant. */
  lemma NamesMerged(p: Plant, b: PlantBody, upload: Option<string>, now: nat)
    requires PlantSchema.Valid(p) && ApplyUpdate(p, b, upload, now).Ok?
    ensures var q := ApplyUpdate(p, b, upload, now).value;
      && q.localName == (if Truthy(b.localName) then Trim(b.localName.value) else p.localName)
      && q.scientificName == (if Truthy(b.scientificName) then Trim(b.scientificName.value) else p.scientificName)
      && q.familyName == (if Truthy(b.familyName) then Trim(b.familyName.value) else p.familyName)
      && (if Truthy(b.habit) then HabitName(q.habit) == b.habit.value else q.habit == p.habit)
  {
    NameMerged(b.localName, p.localName);
    NameMerged(b.scientificName, p.scientificName);
    NameMerged(b.familyName, p.familyName);
    SavedAsMerged(p, b, upload, now);
    var saved := SaveMerged(p, b, upload).value;
    if !Truthy(b.habit) {
      assert HabitName(saved.habit) == HabitName(p.habit);
      HabitNameInjective(saved.habit, p.habit);
    }
  }

  /** The uses, description, location and map link of an updated plant. */
  lemma OthersMerged(p: Plant, b: PlantBody, upload: Option<string>, now: nat)
    requires PlantSchema.Valid(p) && ApplyUpdate(p, b, upload, now).Ok?
    ensures var q := ApplyUpdate(p, b, upload, now).value;
      && q.uses == (if b.uses.Absent? then p.uses else TrimAll(ParseUses(b.uses).value))
      && q.description == OrPrior(b.description, p.description)
      && q.location == OrPrior(b.location, p.location)
      && q.mapLink == OrPrior(b.mapLink, p.mapLink)
  {
    TrimAllTrimmed(p.uses);
    SavedAsMerged(p, b, upload, now);
  }

  lemma HabitNameInjective(h: Habit, k: Habit)
    requires HabitName(h) == HabitName(k)
    ensures h == k
  {
    assert ParseHabit(HabitName(h)) == Some(h);
    assert ParseHabit(HabitName(k)) == Some(k);
  }

  /** An update that sends nothing and no file saves the plant unchanged. */
  lemma EmptyUpdateKeeps(p: Plant, now: nat)
    requires PlantSchema.Valid(p)
    ensures ApplyUpdate(p, PlantBody(None, None, None, None, Absent, None, None, None), None, now) == Ok(p)
  {
    NormalizeStored(p);
    assert MergeDraft(p, PlantBody(None, None, None, None, Absent, None, None, None), None) == DraftOf(p);
  }

  /** Sending only a new description changes the description, and the
      update time when the description differs, and nothing else. */
  lemma UpdateDescriptionOnly(p: Plant, d: string, now: nat)
    requires PlantSchema.Valid(p) && d != ""
    ensures ApplyUpdate(p, PlantBody(None, None, None, None, Absent, Some(d), None, None), None, now)
      == Ok(if d == p.description then p else p.(description := d, updatedAt := now))
  {
    var b := PlantBody(None, None, None, None, Absent, Some(d), None, None);
    var p' := p.(description := d);
    assert PlantSchema.Valid(p');
    NormalizeStored(p');
    assert MergeDraft(p, b, None) == DraftOf(p');
  }

  /** Blank strings are not truthy, so sending them keeps the prior
      values. */
  lemma EmptyStringsKeep(p: Plant, now: nat)
    requires PlantSchema.Valid(p)
    ensures ApplyUpdate(p, PlantBody(Some(""), Some(""), Some(""), Some(""), Absent, Some(""), Some(""), Some("")), None, now) == Ok(p)
  {
    NormalizeStored(p);
    assert MergeDraft(p, PlantBody(Some(""), Some(""), Some(""), Some(""), Absent, Some(""), Some(""), Some("")), None) == DraftOf(p);
  }

  // ---------------------------------------------------------------------
  // Image files

  /** An image stored under the server's own upload directory. */
  predicate IsLocal(path: string) {
    "/uploads" <= path
  }

  /** The file an update releases: the prior local image, when a new file
      replaces it. */
  function ReleasedImage(p: Plant, upload: Option<string>): (r: set<string>)
    ensures r == {} || (r == {p.image} && IsLocal(p.image) && upload.Some?)
    ensures upload.Some? && IsLocal(p.image) ==> p.image in r
  {
    if upload.Some? && IsLocal(p.image) then {p.image} else {}
  }

  /** The file a delete releases: the plant's local image, if any. */
  function LocalImage(p: Plant): (r: set<string>)
    ensures r == {} || (r == {p.image} && IsLocal(p.image))
    ensures IsLocal(p.image) ==> p.image in r
  {
    if IsLocal(p.image) then {p.image} else {}
  }

  /** No stored plant refers to a removed file. */
  predicate NoDanglingImages(store: seq<Plant>, removed: set<string>) {
    forall p :: p in store && IsLocal(p.image) ==> p.image !in removed
  }

  /** No two stored plants share a local image file. */
  predicate DistinctLocalImages(store: seq<Plant>) {
    forall p, q :: p in store && q in store && p.id != q.id && IsLocal(p.image) ==> p.image != q.image
  }

  /** An uploaded file is new: neither removed nor referred to. */
  predicate FreshUpload(store: seq<Plant>, removed: set<string>, upload: Option<string>) {
    upload.Some? ==> upload.value !in removed && forall p :: p in store ==> p.image != upload.value
  }

  // ---------------------------------------------------------------------
  // The collection after an update or a delete

  /** The collection with the plant of `q`'s id replaced by `q`. */
  function ReplaceById(store: seq<Plant>, q: Plant): (r: seq<Plant>)
    ensures |r| == |store|
    ensures forall i :: 0 <= i < |r| ==> r[i].id == store[i].id
    ensures forall i :: 0 <= i < |r| ==> r[i] == if store[i].id == q.id then q else store[i]
    decreases |store|
  {
    if store == [] then []
    else [if store[0].id == q.id then q else store[0]] + ReplaceById(store[1..], q)
  }

  /** After the replacement the collection holds `q`, when its id was
      stored, and every plant of another id, and nothing else. */
  lemma ReplaceMembers(store: seq<Plant>, q: Plant)
    ensures forall x :: x in ReplaceById(store, q) ==> x == q || (x in store && x.id != q.id)
    ensures forall x :: x in store && x.id != q.id ==> x in ReplaceById(store, q)
    ensures (exists i :: 0 <= i < |store| && store[i].id == q.id) ==> q in ReplaceById(store, q)
  {
    var r := ReplaceById(store, q);
    forall x | x in r ensures x == q || (x in store && x.id != q.id) {
      var i :| 0 <= i < |r| && r[i] == x;
      if x != q {
        assert x == store[i];
      }
    }
    forall x | x in store && x.id != q.id ensures x in r {
      var i :| 0 <= i < |store| && store[i] == x;
      assert r[i] == x;
    }
    if exists i :: 0 <= i < |store| && store[i].id == q.id {
      var i :| 0 <= i < |store| && store[i].id == q.id;
      assert r[i] == q;
    }
  }

  /** Replacing keeps the ids unique. */
  lemma ReplaceUnique(store: seq<Plant>, q: Plant)
    requires UniqueIds(store)
    ensures UniqueIds(ReplaceById(store, q))
  {
    var r := ReplaceById(store, q);
    forall i, j | 0 <= i < j < |r| ensures r[i].id != r[j].id {
      assert r[i].id == store[i].id && r[j].id == store[j].id;
    }
  }

  /** After the replacement the id finds `q`, and every other id finds
      what it found before. */
  lemma FindReplaced(store: seq<Plant>, q: Plant, id: PlantId)
    requires UniqueIds(store) && FindById(store, q.id).Ok?
    ensures FindById(ReplaceById(store, q), id) == if id == q.id then Ok(q) else FindById(store, id)
  {
    var r := ReplaceById(store, q);
    ReplaceUnique(store, q);
    ReplaceMembers(store, q);
    if id == q.id {
      var k :| 0 <= k < |r| && r[k] == q;
      FindByIdStored(r, k);
    } else if FindById(store, id).Ok? {
      var x := FindById(store, id).value;
      var k :| 0 <= k < |r| && r[k] == x;
      FindByIdStored(store, k);
      FindByIdStored(r, k);
    } else {
      assert forall i :: 0 <= i < |r| ==> r[i].id != id by {
        forall i | 0 <= i < |r| ensures r[i].id != id {
          assert r[i].id == store[i].id;
        }
      }
      assert FindById(r, id).Err? && FindById(store, id).Err?;
      assert FindById(r, id).error == NotFound && FindById(store, id).error == NotFound;
    }
  }

  /** The collection without the plant of that id (`findByIdAndDelete`). */
  function RemoveById(store: seq<Plant>, id: PlantId): (r: seq<Plant>)
    ensures forall x :: x in r <==> x in store && x.id != id
    ensures UniqueIds(store) ==> UniqueIds(r)
    decreases |store|
  {
    if store == [] then []
    else
      var rest := RemoveById(store[1..], id);
      if store[0].id == id then rest
      else
        assert UniqueIds(store) ==> forall x :: x in rest ==> x.id != store[0].id by {
          if UniqueIds(store) {
            forall x | x in rest ensures x.id != store[0].id {
              var k :| 0 <= k < |store[1..]| && store[1..][k] == x;
              assert store[k + 1] == x;
            }
          }
        }
        assert UniqueIds(store) ==> UniqueIds(rest) by {
          if UniqueIds(store) {
            assert UniqueIds(store[1..]);
          }
        }
        assert UniqueIds(store) ==> UniqueIds([store[0]] + rest) by {
          if UniqueIds(store) {
            var r := [store[0]] + rest;
            forall i, j | 0 <= i < j < |r| ensures r[i].id != r[j].id {
              assert r[j] == rest[j - 1];
              assert rest[j - 1] in rest;
              if i > 0 {
                assert r[i] == rest[i - 1];
              }
            }
          }
        }
        [store[0]] + rest
  }

  /** After the removal the id is no longer found. */
  lemma RemoveGone(store: seq<Plant>, id: PlantId)
    ensures FindById(RemoveById(store, id), id).Err?
  {
    var r := RemoveById(store, id);
    forall i | 0 <= i < |r| ensures r[i].id != id {
      assert r[i] in r;
    }
  }

  /** The removal does not change what any other id finds. */
  lemma {:induction false} RemoveKeepsOthers(store: seq<Plant>, id: PlantId, other: PlantId)
    requires other != id
    ensures FindById(RemoveById(store, id), other) == FindById(store, other)
    decreases |store|
  {
    if store != [] {
      RemoveKeepsOthers(store[1..], id, other);
    }
  }

  /** With unique ids, removing a stored id drops exactly one entry. */
  lemma {:induction false} RemoveLength(store: seq<Plant>, id: PlantId)
    requires UniqueIds(store) && FindById(store, id).Ok?
    ensures |RemoveById(store, id)| == |store| - 1
    decreases |store|
  {
    assert UniqueIds(store[1..]);
    if store[0].id == id {
      RemoveAbsent(store[1..], id);
    } else {
      RemoveLength(store[1..], id);
    }
  }

  /** Deleting a stored id removes exactly one plant: the id is no longer
      found, every other id finds what it found before, and the collection
      shrinks by one. */
  lemma RemoveExactlyOne(store: seq<Plant>, id: PlantId, other: PlantId)
    requires UniqueIds(store) && FindById(store, id).Ok?
    ensures FindById(RemoveById(store, id), id).Err?
    ensures other != id ==> FindById(RemoveById(store, id), other) == FindById(store, other)
    ensures |RemoveById(store, id)| == |store| - 1
  {
    RemoveGone(store, id);
    if other != id {
      RemoveKeepsOthers(store, id, other);
    }
    RemoveLength(store, id);
  }

  /** Removing an id that is not there changes nothing. */
  lemma {:induction false} RemoveAbsent(store: seq<Plant>, id: PlantId)
    requires forall i :: 0 <= i < |store| ==> store[i].id != id
    ensures RemoveById(store, id) == store
    decreases |store|
  {
    if store != [] {
      RemoveAbsent(store[1..], id);
      assert [store[0]] + store[1..] == store;
    }
  }

  // ---------------------------------------------------------------------
  // Dashboard

  const RecentLimit := 5

  /** A recent plant as the dashboard shows it (`select('localName
      scientificName createdAt')`, with the id). */
  datatype RecentPlant = RecentPlant(id: PlantId, localName: string, scientificName: string, createdAt: nat)

  function Summary(p: Plant): RecentPlant {
    RecentPlant(p.id, p.localName, p.scientificName, p.createdAt)
  }

  /** The summaries of the stored plants. */
  function Summaries(store: seq<Plant>): set<RecentPlant> {
    set p | p in store :: Summary(p)
  }

  /** The summaries of a list of plants, in its order. */
  function SummaryList(ps: seq<Plant>): (r: seq<RecentPlant>)
    ensures |r| == |ps| && forall i :: 0 <= i < |r| ==> r[i] == Summary(ps[i])
  {
    seq(|ps|, i requires 0 <= i < |ps| => Summary(ps[i]))
  }

  /** The newest plants, newest first, at most five. A plant not shown is
      no newer than any shown. */
  function Recent(store: seq<Plant>): (r: seq<RecentPlant>)
    ensures |r| == if |store| <= RecentLimit then |store| else RecentLimit
    ensures forall i, j :: 0 <= i < j < |r| ==> r[i].createdAt >= r[j].createdAt
    ensures forall i :: 0 <= i < |r| ==> r[i] in Summaries(store)
    ensures forall p :: p in store && Summary(p) !in r ==>
      |r| == RecentLimit && forall i :: 0 <= i < |r| ==> r[i].createdAt >= p.createdAt
    ensures UniqueIds(store) ==> forall i, j :: 0 <= i < j < |r| ==> r[i].id != r[j].id
  {
    var sorted := SortNewest(store);
    var top := if |sorted| <= RecentLimit then sorted else sorted[..RecentLimit];
    var r := SummaryList(top);
    RecentPrefix(store, sorted, top, r);
    SortedUniqueIds(store);
    RecentDistinct(sorted, top, r);
    r
  }

  /** With unique ids, the five shown are five different plants. */
  lemma RecentDistinct(sorted: seq<Plant>, top: seq<Plant>, r: seq<RecentPlant>)
    requires top == if |sorted| <= RecentLimit then sorted else sorted[..RecentLimit]
    requires |r| == |top| && forall i :: 0 <= i < |r| ==> r[i] == Summary(top[i])
    ensures UniqueIds(sorted) ==> forall i, j :: 0 <= i < j < |r| ==> r[i].id != r[j].id
  {
    if UniqueIds(sorted) {
      forall i, j | 0 <= i < j < |r| ensures r[i].id != r[j].id {
        assert top[i] == sorted[i] && top[j] == sorted[j];
      }
    }
  }

  /** The summaries of the first five of the plants sorted newest first are
      at most five, newest first, summaries of stored plants, and no plant
      left out is newer than any of them. */
  lemma RecentPrefix(store: seq<Plant>, sorted: seq<Plant>, top: seq<Plant>, r: seq<RecentPlant>)
    requires sorted == SortNewest(store)
    requires top == if |sorted| <= RecentLimit then sorted else sorted[..RecentLimit]
    requires |r| == |top| && forall i :: 0 <= i < |r| ==> r[i] == Summary(top[i])
    ensures |r| == if |store| <= RecentLimit then |store| else RecentLimit
    ensures forall i, j :: 0 <= i < j < |r| ==> r[i].createdAt >= r[j].createdAt
    ensures forall i :: 0 <= i < |r| ==> r[i] in Summaries(store)
    ensures forall p :: p in store && Summary(p) !in r ==>
      |r| == RecentLimit && forall i :: 0 <= i < |r| ==> r[i].createdAt >= p.createdAt
  {
    RecentFromStore(store, sorted, top, r);
    forall p | p in store && Summary(p) !in r
      ensures |r| == RecentLimit && forall i :: 0 <= i < |r| ==> r[i].createdAt >= p.createdAt
    {
      assert p in multiset(sorted);
      RecentDominates(sorted, top, r, p);
    }
  }

  lemma RecentFromStore(store: seq<Plant>, sorted: seq<Plant>, top: seq<Plant>, r: seq<RecentPlant>)
    requires sorted == SortNewest(store)
    requires top == if |sorted| <= RecentLimit then sorted else sorted[..RecentLimit]
    requires |r| == |top| && forall i :: 0 <= i < |r| ==> r[i] == Summary(top[i])
    ensures forall i, j :: 0 <= i < j < |r| ==> r[i].createdAt >= r[j].createdAt
    ensures forall i :: 0 <= i < |r| ==> r[i] in Summaries(store)
  {
    forall i | 0 <= i < |r| ensures r[i] in Summaries(store) {
      var p := top[i];
      assert p in store by {
        assert p == sorted[i];
        assert p in multiset(sorted);
      }
      assert r[i] == Summary(p);
    }
    forall i, j | 0 <= i < j < |r| ensures r[i].createdAt >= r[j].createdAt {
      assert top[i] == sorted[i] && top[j] == sorted[j];
    }
  }

  /** A plant of a newest-first list missing from the summaries of its
      first five is outranked by all five. */
  lemma RecentDominates(sorted: seq<Plant>, top: seq<Plant>, r: seq<RecentPlant>, p: Plant)
    requires NewestFirst(sorted)
    requires top == if |sorted| <= RecentLimit then sorted else sorted[..RecentLimit]
    requires |r| == |top| && forall i :: 0 <= i < |r| ==> r[i] == Summary(top[i])
    requires p in sorted && Summary(p) !in r
    ensures |r| == RecentLimit && forall i :: 0 <= i < |r| ==> r[i].createdAt >= p.createdAt
  {
    var k :| 0 <= k < |sorted| && sorted[k] == p;
    forall i | 0 <= i < |top| ensures sorted[i] != p {
      assert r[i] == Summary(top[i]);
      assert top[i] == sorted[i];
    }
    assert |top| <= k;
    forall i | 0 <= i < |r| ensures r[i].createdAt >= p.createdAt {
      assert top[i] == sorted[i];
    }
  }

  /** The habit statistics object after writing `groups` into it in order;
      a later write to the same habit wins. */
  function StatsMap(groups: seq<HabitCount>): map<Habit, nat>
    decreases |groups|
  {
    if groups == [] then map[]
    else
      var last := groups[|groups| - 1];
      StatsMap(groups[..|groups| - 1])[last.habit := last.count]
  }

  /** `habitDistribution.forEach(item => habitStats[item._id] = item.count)`. */
  method HabitStatsOf(groups: seq<HabitCount>) returns (m: map<Habit, nat>)
    ensures m == StatsMap(groups)
  {
    m := map[];
    var i := 0;
    while i < |groups|
      invariant 0 <= i <= |groups|
      invariant m == StatsMap(groups[..i])
    {
      assert groups[..i + 1][..i] == groups[..i];
      m := m[groups[i].habit := groups[i].count];
      i := i + 1;
    }
    assert groups[..|groups|] == groups;
  }

  /** With one group per habit, the object maps exactly the grouped habits
      to their counts. */
  lemma {:induction false} StatsMapDistinct(groups: seq<HabitCount>)
    requires DistinctHabits(groups)
    ensures forall h :: h in StatsMap(groups) <==> exists i :: 0 <= i < |groups| && groups[i].habit == h
    ensures forall i :: 0 <= i < |groups| ==> StatsMap(groups)[groups[i].habit] == groups[i].count
    decreases |groups|
  {
    if groups != [] {
      var n := |groups| - 1;
      var init := groups[..n];
      var last := groups[n];
      var m0 := StatsMap(init);
      assert StatsMap(groups) == m0[last.habit := last.count];
      assert DistinctHabits(init);
      StatsMapDistinct(init);
      forall i | 0 <= i < n ensures init[i].habit != last.habit {
        assert init[i] == groups[i];
      }
      forall h | h in StatsMap(groups) ensures exists i :: 0 <= i < |groups| && groups[i].habit == h {
        if h == last.habit {
          assert groups[n].habit == h;
        } else {
          assert h in m0;
          var i :| 0 <= i < n && init[i].habit == h;
          assert groups[i] == init[i];
        }
      }
      forall i | 0 <= i < |groups| ensures StatsMap(groups)[groups[i].habit] == groups[i].count {
        if i < n {
          assert groups[i] == init[i];
          assert m0[init[i].habit] == init[i].count;
        }
      }
    }
  }

  /** The value the statistics object shows for a habit, zero when absent. */
  function StatOf(m: map<Habit, nat>, h: Habit): nat {
    if h in m then m[h] else 0
  }

  function SumStats(m: map<Habit, nat>, hs: seq<Habit>): nat {
    if hs == [] then 0 else StatOf(m, hs[0]) + SumStats(m, hs[1..])
  }

  lemma {:induction false} SumStatsCounts(m: map<Habit, nat>, store: seq<Plant>, hs: seq<Habit>)
    requires forall h :: StatOf(m, h) == CountHabit(store, h)
    ensures SumStats(m, hs) == SumHabits(store, hs)
  {
    if hs != [] {
      SumStatsCounts(m, store, hs[1..]);
    }
  }

  /** The dashboard's habit statistics map each habit present to its count,
      and those counts add up to the number of plants. */
  lemma DashboardHabits(store: seq<Plant>)
    ensures var m := StatsMap(HabitGroups(store));
      && (forall h :: h in m <==> CountHabit(store, h) > 0)
      && (forall h :: h in m ==> m[h] == CountHabit(store, h))
      && SumStats(m, AllHabits) == |store|
  {
    var groups := HabitGroups(store);
    var m := StatsMap(groups);
    StatsMapDistinct(groups);
    forall h ensures StatOf(m, h) == CountHabit(store, h) {
      if h in m {
        var i :| 0 <= i < |groups| && groups[i].habit == h;
      }
    }
    SumStatsCounts(m, store, AllHabits);
    HabitCountsSum(store);
  }

  /** The dashboard document. */
  datatype DashboardView = DashboardView(
    totalPlants: nat,
    totalFamilies: nat,
    recentPlants: seq<RecentPlant>,
    habitStats: map<Habit, nat>)

  // ---------------------------------------------------------------------
  // Responses

  /** The two failures of the admin endpoints: an unknown id (404 "Plant
      not found") and any failure of the save (500 "Server error"). */
  datatype AdminError = PlantNotFound | ServerError(errors: seq<FieldError>)

  function Status(e: AdminError): nat {
    match e
    case PlantNotFound => 404
    case ServerError(_) => 500
  }

  function Message(e: AdminError): string {
    match e
    case PlantNotFound => "Plant not found"
    case ServerError(_) => "Server error"
  }

  // ---------------------------------------------------------------------
  // The update handler as written

  /** The collection, the removed files and the answer after a request. */
  datatype Outcome = Outcome(plants: seq<Plant>, removedFiles: set<string>, result: Result<Plant, AdminError>)

  /** The create handler: the new plant is appended under the next id, and
      a failed save is answered 500 and leaves the collection as it was. */
  function CreateOutcome(store: seq<Plant>, removed: set<string>, nextId: PlantId, admin: AdminId, b: PlantBody, upload: Option<string>, now: nat): (o: Outcome)
    ensures o.removedFiles == removed
    ensures o.result.Err? <==> CreateRecord(b, admin, upload, nextId, now).Err?
    ensures o.result.Err? ==>
      && o.plants == store && o.result.error.ServerError?
      && Status(o.result.error) == 500 && Message(o.result.error) == "Server error"
    ensures o.result.Ok? ==>
      && o.plants == store + [o.result.value] && o.result.value.id == nextId
      && o.result.value == CreateRecord(b, admin, upload, nextId, now).value
  {
    match CreateRecord(b, admin, upload, nextId, now)
    case Err(e) => Outcome(store, removed, Err(ServerError(e)))
    case Ok(p) => Outcome(store + [p], removed, Ok(p))
  }

  /** The update handler in its written order: the prior local image is
      unlinked before the save, whether or not the save then succeeds. */
  function UpdateAsWritten(store: seq<Plant>, removed: set<string>, id: PlantId, b: PlantBody, upload: Option<string>, now: nat): (o: Outcome)
    ensures FindById(store, id).Err? ==> o == Outcome(store, removed, Err(PlantNotFound))
    ensures FindById(store, id).Ok? ==> o.removedFiles == removed + ReleasedImage(FindById(store, id).value, upload)
  {
    match FindById(store, id)
    case Err(_) => Outcome(store, removed, Err(PlantNotFound))
    case Ok(p) =>
      var released := removed + ReleasedImage(p, upload);
      match ApplyUpdate(p, b, upload, now)
      case Err(e) => Outcome(store, released, Err(ServerError(e)))
      case Ok(q) => Outcome(ReplaceById(store, q), released, Ok(q))
  }

  /** A replacement image sent with a habit outside the enum: the save
      fails and the plant is kept, still pointing at its prior local image,
      which the handler has already removed. */
  lemma UnlinkBeforeFailedSave(p: Plant, b: PlantBody, newImage: string, now: nat)
    requires PlantSchema.Valid(p) && IsLocal(p.image)
    requires b.habit == Some("Bush")
    ensures var o := UpdateAsWritten([p], {}, p.id, b, Some(newImage), now);
      && NoDanglingImages([p], {})
      && o.result.Err?
      && o.plants == [p]
      && !NoDanglingImages(o.plants, o.removedFiles)
  {
    assert ParseHabit("Bush").None?;
    assert FindById([p], p.id) == Ok(p);
    UpdateAccepted(p, b, Some(newImage), now);
    var o := UpdateAsWritten([p], {}, p.id, b, Some(newImage), now);
    assert p.image in o.removedFiles;
  }

  /** The update handler with the prior image removed only after the save
      has succeeded: a request that fails leaves the collection and the
      files as they were. */
  function UpdateCorrected(store: seq<Plant>, removed: set<string>, id: PlantId, b: PlantBody, upload: Option<string>, now: nat): (o: Outcome)
    ensures o.result == Err(PlantNotFound) <==> FindById(store, id).Err?
    ensures o.result == Err(PlantNotFound) ==> Status(o.result.error) == 404 && Message(o.result.error) == "Plant not found"
    ensures o.result.Err? ==> o.plants == store && o.removedFiles == removed
    ensures FindById(store, id).Ok? ==>
      var saved := ApplyUpdate(FindById(store, id).value, b, upload, now);
      && (o.result.Ok? <==> saved.Ok?)
      && (o.result.Ok? ==> o.result.value == saved.value)
      && (saved.Err? ==> o.result == Err(ServerError(saved.error)) && Message(o.result.error) == "Server error")
    ensures o.result.Ok? ==>
      && FindById(store, id).Ok?
      && o.plants == ReplaceById(store, o.result.value)
      && o.removedFiles == removed + ReleasedImage(FindById(store, id).value, upload)
  {
    match FindById(store, id)
    case Err(_) => Outcome(store, removed, Err(PlantNotFound))
    case Ok(p) =>
      match ApplyUpdate(p, b, upload, now)
      case Err(e) => Outcome(store, removed, Err(ServerError(e)))
      case Ok(q) => Outcome(ReplaceById(store, q), removed + ReleasedImage(p, upload), Ok(q))
  }

  /** The two orders answer alike and leave the same collection; they
      differ only in the files a failed save has removed. */
  lemma CorrectedMatchesWritten(store: seq<Plant>, removed: set<string>, id: PlantId, b: PlantBody, upload: Option<string>, now: nat)
    ensures var c := UpdateCorrected(store, removed, id, b, upload, now);
      var w := UpdateAsWritten(store, removed, id, b, upload, now);
      && c.result == w.result && c.plants == w.plants
      && (c.result.Ok? || c.result == Err(PlantNotFound) ==> c.removedFiles == w.removedFiles)
      && c.removedFiles <= w.removedFiles
  {
  }

  // ---------------------------------------------------------------------
  // The repository invariant

  /** Every stored plant is valid, ids are unique and below the next id,
      and no plant refers to a removed or shared local file. */
  predicate StoreInvariant(store: seq<Plant>, nextId: PlantId, removed: set<string>) {
    && UniqueIds(store)
    && (forall p :: p in store ==> PlantSchema.Valid(p) && p.id < nextId)
    && NoDanglingImages(store, removed)
    && DistinctLocalImages(store)
  }

  /** Appending a fresh valid plant under the next id keeps the invariant. */
  lemma CreateKeepsInvariant(store: seq<Plant>, nextId: PlantId, removed: set<string>, p: Plant, upload: Option<string>)
    requires StoreInvariant(store, nextId, removed)
    requires FreshUpload(store, removed, upload)
    requires PlantSchema.Valid(p) && p.id == nextId
    requires p.image == if upload.Some? then upload.value else ""
    ensures StoreInvariant(store + [p], nextId + 1, removed)
  {
    var r := store + [p];
    forall i, j | 0 <= i < j < |r| ensures r[i].id != r[j].id {
      assert r[i] == store[i] && store[i] in store;
      if j < |store| {
        assert r[j] == store[j];
      }
    }
    assert !IsLocal("");
  }

  /** A create keeps the invariant. */
  lemma CreateOutcomeKeepsInvariant(store: seq<Plant>, nextId: PlantId, removed: set<string>, admin: AdminId, b: PlantBody, upload: Option<string>, now: nat)
    requires StoreInvariant(store, nextId, removed)
    requires FreshUpload(store, removed, upload)
    ensures var o := CreateOutcome(store, removed, nextId, admin, b, upload, now);
      StoreInvariant(o.plants, if o.result.Ok? then nextId + 1 else nextId, o.removedFiles)
  {
    var saved := CreateRecord(b, admin, upload, nextId, now);
    if saved.Ok? {
      CreateKeepsInvariant(store, nextId, removed, saved.value, upload);
    }
  }

  /** A plant appended under an id above every stored one is found by that
      id. */
  lemma AppendFind(store: seq<Plant>, p: Plant)
    requires forall x :: x in store ==> x.id < p.id
    ensures FindById(store + [p], p.id) == Ok(p)
  {
    var r := store + [p];
    assert r[|store|] == p;
    var found := FindById(r, p.id);
    assert found.value in store || found.value == p;
  }

  /** Fetching a created plant by its id returns it as saved, with the
      submitted names, habit and location. */
  lemma CreateThenFind(store: seq<Plant>, nextId: PlantId, b: PlantBody, admin: AdminId, upload: Option<string>, now: nat)
    requires forall x :: x in store ==> x.id < nextId
    requires CreateRecord(b, admin, upload, nextId, now).Ok?
    ensures var p := CreateRecord(b, admin, upload, nextId, now).value;
      && FindById(store + [p], nextId) == Ok(p)
      && p.localName == Trim(b.localName.value)
      && p.scientificName == Trim(b.scientificName.value)
      && p.familyName == Trim(b.familyName.value)
      && HabitName(p.habit) == b.habit.value
      && p.location == b.location.value
  {
    AppendFind(store, CreateRecord(b, admin, upload, nextId, now).value);
  }

  /** Replacing a stored plant by a valid plant of the same id whose image
      is the fresh upload, or the prior image, keeps the invariant once the
      released file is added to the removed ones. */
  lemma UpdateKeepsInvariant(store: seq<Plant>, nextId: PlantId, removed: set<string>, p: Plant, q: Plant, upload: Option<string>)
    requires StoreInvariant(store, nextId, removed)
    requires FreshUpload(store, removed, upload)
    requires p in store && q.id == p.id && PlantSchema.Valid(q)
    requires q.image == if upload.Some? then upload.value else p.image
    ensures StoreInvariant(ReplaceById(store, q), nextId, removed + ReleasedImage(p, upload))
  {
    ReplaceUnique(store, q);
    ReplaceMembers(store, q);
    ReplaceNoDangling(store, removed, p, q, upload);
    ReplaceDistinctImages(store, removed, p, q, upload);
  }

  /** After the replacement no plant points at a removed file, the
      released one included. */
  lemma ReplaceNoDangling(store: seq<Plant>, removed: set<string>, p: Plant, q: Plant, upload: Option<string>)
    requires NoDanglingImages(store, removed) && DistinctLocalImages(store)
    requires FreshUpload(store, removed, upload)
    requires p in store && q.id == p.id
    requires q.image == if upload.Some? then upload.value else p.image
    ensures NoDanglingImages(ReplaceById(store, q), removed + ReleasedImage(p, upload))
  {
    var r := ReplaceById(store, q);
    ReplaceMembers(store, q);
    forall x | x in r && IsLocal(x.image) ensures x.image !in removed + ReleasedImage(p, upload) {
      if x != q {
        assert x in store && x.id != p.id;
      }
    }
  }

  /** After the replacement no two plants share a local file. */
  lemma ReplaceDistinctImages(store: seq<Plant>, removed: set<string>, p: Plant, q: Plant, upload: Option<string>)
    requires DistinctLocalImages(store)
    requires FreshUpload(store, removed, upload)
    requires p in store && q.id == p.id
    requires q.image == if upload.Some? then upload.value else p.image
    ensures DistinctLocalImages(ReplaceById(store, q))
  {
    var r := ReplaceById(store, q);
    ReplaceMembers(store, q);
    forall x, y | x in r && y in r && x.id != y.id && IsLocal(x.image) ensures x.image != y.image {
      if x == q && upload.Some? {
        assert y in store;
      } else if y == q && upload.Some? {
        assert x in store;
      } else if x == q {
        assert y in store && y.id != p.id;
      } else if y == q {
        assert x in store && x.id != p.id;
      } else {
        assert x in store && y in store;
      }
    }
  }

  /** A corrected update keeps the invariant. */
  lemma UpdateCorrectedKeepsInvariant(store: seq<Plant>, nextId: PlantId, removed: set<string>, id: PlantId, b: PlantBody, upload: Option<string>, now: nat)
    requires StoreInvariant(store, nextId, removed)
    requires FreshUpload(store, removed, upload)
    ensures var o := UpdateCorrected(store, removed, id, b, upload, now);
      StoreInvariant(o.plants, nextId, o.removedFiles)
  {
    var found := FindById(store, id);
    if found.Ok? {
      var saved := ApplyUpdate(found.value, b, upload, now);
      if saved.Ok? {
        UpdateKeepsInvariant(store, nextId, removed, found.value, saved.value, upload);
      }
    }
  }

  /** Removing a stored plant keeps the invariant once its local image is
      added to the removed files. */
  lemma DeleteKeepsInvariant(store: seq<Plant>, nextId: PlantId, removed: set<string>, p: Plant)
    requires StoreInvariant(store, nextId, removed)
    requires p in store
    ensures StoreInvariant(RemoveById(store, p.id), nextId, removed + LocalImage(p))
  {
  }

  // ---------------------------------------------------------------------
  // The repository

  /** The plant collection behind the admin endpoints, with the files the
      handlers have removed from the upload directory. */
  class PlantRepository {
    var plants: seq<Plant>
    var nextId: PlantId
    var removedFiles: set<string>

    ghost predicate Valid()
      reads this
    {
      StoreInvariant(plants, nextId, removedFiles)
    }

    constructor ()
      ensures Valid()
      ensures plants == [] && nextId == 0 && removedFiles == {}
    {
      plants := [];
      nextId := 0;
      removedFiles := {};
    }

    /** `POST /api/admin/plants`: 201 with the new plant, or 500 when the
        save fails. */
    method Create(admin: AdminId, b: PlantBody, upload: Option<string>, now: nat) returns (r: Result<Plant, AdminError>)
      requires Valid()
      requires FreshUpload(plants, removedFiles, upload)
      modifies this
      ensures Valid()
      ensures nextId == if r.Ok? then old(nextId) + 1 else old(nextId)
      ensures Outcome(plants, removedFiles, r) == CreateOutcome(old(plants), old(removedFiles), old(nextId), admin, b, upload, now)
    {
      var o := CreateOutcome(plants, removedFiles, nextId, admin, b, upload, now);
      CreateOutcomeKeepsInvariant(plants, nextId, removedFiles, admin, b, upload, now);
      plants := o.plants;
      removedFiles := o.removedFiles;
      nextId := if o.result.Ok? then nextId + 1 else nextId;
      r := o.result;
    }

    /** `PUT /api/admin/plants/:id`, with the prior image removed only
        once the save has succeeded. */
    method Update(id: PlantId, b: PlantBody, upload: Option<string>, now: nat) returns (r: Result<Plant, AdminError>)
      requires Valid()
      requires FreshUpload(plants, removedFiles, upload)
      modifies this
      ensures Valid()
      ensures nextId == old(nextId)
      ensures Outcome(plants, removedFiles, r) == UpdateCorrected(old(plants), old(removedFiles), id, b, upload, now)
    {
      var o := UpdateCorrected(plants, removedFiles, id, b, upload, now);
      UpdateCorrectedKeepsInvariant(plants, nextId, removedFiles, id, b, upload, now);
      plants := o.plants;
      removedFiles := o.removedFiles;
      r := o.result;
    }

    /** `DELETE /api/admin/plants/:id`: 404 for an unknown id, else the
        plant and its local image file are removed. */
    method Delete(id: PlantId) returns (r: Result<(), AdminError>)
      requires Valid()
      modifies this
      ensures Valid()
      ensures nextId == old(nextId)
      ensures FindById(old(plants), id).Err? ==>
        r == Err(PlantNotFound) && plants == old(plants) && removedFiles == old(removedFiles)
      ensures FindById(old(plants), id).Ok? ==>
        && r == Ok(())
        && plants == RemoveById(old(plants), id)
        && removedFiles == old(removedFiles) + LocalImage(FindById(old(plants), id).value)
    {
      var found := FindById(plants, id);
      if found.Err? {
        r := Err(PlantNotFound);
      } else {
        DeleteKeepsInvariant(plants, nextId, removedFiles, found.value);
        plants := RemoveById(plants, id);
        removedFiles := removedFiles + LocalImage(found.value);
        r := Ok(());
      }
    }

    /** `GET /api/admin/dashboard`. */
    method Dashboard() returns (d: DashboardView)
      ensures d.totalPlants == |plants|
      ensures d.totalFamilies == |FamilyNames(plants)|
      ensures d.recentPlants == Recent(plants)
      ensures forall h :: h in d.habitStats <==> CountHabit(plants, h) > 0
      ensures forall h :: h in d.habitStats ==> d.habitStats[h] == CountHabit(plants, h)
      ensures SumStats(d.habitStats, AllHabits) == d.totalPlants
    {
      var families := FamilyList(plants);
      FamilyListCount(plants);
      var stats := HabitStatsOf(HabitGroups(plants));
      DashboardHabits(plants);
      d := DashboardView(|plants|, |families|, Recent(plants), stats);
    }
  }
}
