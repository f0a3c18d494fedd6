/** The public, read-only plant endpoints: the filtered, searched and
    paginated listing, the statistics, one plant by id, and the list of
    families.  The collection is a sequence of documents in natural order. */
module PlantQueries {
  import opened Wrappers
  import opened Text
  import opened PlantSchema

  type Positive = n: int | n >= 1 witness 1

  const DefaultPage: Positive := 1
  const DefaultLimit: Positive := 12

  /** The query string of a listing request. `page` and `limit` are the
      integers `parseInt` reads from them. */
  datatype ListQuery = ListQuery(
    habit: Option<string>,
    family: Option<string>,
    search: Option<string>,
    page: Option<Positive>,
    limit: Option<Positive>)

  /** The query document handed to the store: an exact habit, an exact
      family and a search text, each optional. */
  datatype Filter = Filter(habit: Option<string>, familyName: Option<string>, search: Option<string>)

  /** A JavaScript string value that is truthy: defined and not empty. */
  predicate Truthy(v: Option<string>) {
    v.Some? && v.value != ""
  }

  /** A habit or family selector that restricts: given and not 'all'. */
  predicate Selects(v: Option<string>) {
    Truthy(v) && v.value != "all"
  }

  /** The search clause: the text occurs, ignoring case, in the local,
      scientific or family name. */
  predicate SearchHit(p: Plant, search: string) {
    || ContainsIgnoreCase(p.localName, search)
    || ContainsIgnoreCase(p.scientificName, search)
    || ContainsIgnoreCase(p.familyName, search)
  }

  /** A plant satisfies every clause the filter holds. */
  predicate Matches(f: Filter, p: Plant) {
    && (f.habit.None? || HabitName(p.habit) == f.habit.value)
    && (f.familyName.None? || p.familyName == f.familyName.value)
    && (f.search.None? || SearchHit(p, f.search.value))
  }

  /** Builds the filter of a listing request. Which plants pass is stated
      in terms of the request alone. */
  function BuildFilter(q: ListQuery): (f: Filter)
    ensures forall p :: Matches(f, p) <==>
      && (!Selects(q.habit) || HabitName(p.habit) == q.habit.value)
      && (!Selects(q.family) || p.familyName == q.family.value)
      && (!Truthy(q.search) || SearchHit(p, q.search.value))
  {
    Filter(
      if Selects(q.habit) then q.habit else None,
      if Selects(q.family) then q.family else None,
      if Truthy(q.search) then q.search else None)
  }

  /** `Plant.find(query)` in natural order. */
  function Select(s: seq<Plant>, f: Filter): (r: seq<Plant>)
    ensures |r| <= |s|
    ensures forall p :: p in r <==> p in s && Matches(f, p)
  {
    if s == [] then []
    else (if Matches(f, s[0]) then [s[0]] else []) + Select(s[1..], f)
  }

  /** The find returns each matching document as often as it is stored,
      and no other. */
  lemma {:induction false} SelectCounts(s: seq<Plant>, f: Filter)
    ensures forall p :: multiset(Select(s, f))[p] == if Matches(f, p) then multiset(s)[p] else 0
  {
    if s != [] {
      SelectCounts(s[1..], f);
      assert s == [s[0]] + s[1..];
    }
  }

  /** `Plant.countDocuments(query)`. */
  function CountMatching(s: seq<Plant>, f: Filter): nat {
    if s == [] then 0
    else (if Matches(f, s[0]) then 1 else 0) + CountMatching(s[1..], f)
  }

  /** The count query and the find query agree on how many plants match. */
  lemma {:induction false} CountMatchingSelect(s: seq<Plant>, f: Filter)
    ensures CountMatching(s, f) == |Select(s, f)|
  {
    if s != [] {
      CountMatchingSelect(s[1..], f);
    }
  }

  /** Ordered by `createdAt`, newest first. */
  predicate NewestFirst(s: seq<Plant>) {
    forall i, j :: 0 <= i < j < |s| ==> s[i].createdAt >= s[j].createdAt
  }

  function InsertByDate(p: Plant, s: seq<Plant>): (r: seq<Plant>)
    requires NewestFirst(s)
    ensures NewestFirst(r)
    ensures multiset(r) == multiset(s) + multiset{p}
    ensures forall x :: x in r ==> x == p || x in s
  {
    if s == [] || p.createdAt >= s[0].createdAt then
      PrependNewest(p, s);
      [p] + s
    else
      var rest := InsertByDate(p, s[1..]);
      assert s == [s[0]] + s[1..];
      assert rest == [] || rest[0].createdAt <= s[0].createdAt by {
        if rest != [] {
          assert rest[0] in rest;
          if rest[0] != p {
            var k :| 0 <= k < |s[1..]| && s[1..][k] == rest[0];
            assert s[k + 1] == rest[0];
          }
        }
      }
      PrependNewest(s[0], rest);
      [s[0]] + rest
  }

  /** A plant no older than the head of a newest-first list can go in
      front of it. */
  lemma PrependNewest(x: Plant, s: seq<Plant>)
    requires NewestFirst(s)
    requires s == [] || s[0].createdAt <= x.createdAt
    ensures NewestFirst([x] + s)
  {
    var r := [x] + s;
    forall i, j | 0 <= i < j < |r| ensures r[i].createdAt >= r[j].createdAt {
      assert r[j] == s[j - 1];
      if i > 0 {
        assert r[i] == s[i - 1];
      } else if j > 1 {
        assert s[0].createdAt >= s[j - 1].createdAt;
      }
    }
  }

  /** `.sort({ createdAt: -1 })`; among plants created at the same time
      the natural order is kept. */
  function SortNewest(s: seq<Plant>): (r: seq<Plant>)
    ensures NewestFirst(r)
    ensures multiset(r) == multiset(s)
    ensures |r| == |s|
  {
    if s == [] then []
    else
      assert s == [s[0]] + s[1..];
      InsertByDate(s[0], SortNewest(s[1..]))
  }

  /** How many of `n` items the window at `skip` of width `limit` holds. */
  function PageSize(n: nat, skip: nat, limit: nat): nat {
    if skip >= n then 0 else if skip + limit <= n then limit else n - skip
  }

  /** `.skip(skip).limit(limit)`. */
  function Window(s: seq<Plant>, skip: nat, limit: nat): (r: seq<Plant>)
    ensures |r| == PageSize(|s|, skip, limit)
    ensures forall i :: 0 <= i < |r| ==> skip + i < |s| && r[i] == s[skip + i]
    ensures forall p :: p in r ==> p in s
    ensures NewestFirst(s) ==> NewestFirst(r)
  {
    if skip >= |s| then [] else s[skip..if skip + limit <= |s| then skip + limit else |s|]
  }

  /** `Math.ceil(n / d)`: the least count of pages of `d` that holds `n`. */
  function CeilDiv(n: nat, d: Positive): (r: nat)
    ensures r * d >= n
    ensures r > 0 ==> (r - 1) * d < n
  {
    var q := (n + d - 1) / d;
    assert q * d + (n + d - 1) % d == n + d - 1;
    assert (q - 1) * d == q * d - d;
    q
  }

  function PageOf(q: ListQuery): Positive {
    if q.page.Some? then q.page.value else DefaultPage
  }

  function LimitOf(q: ListQuery): Positive {
    if q.limit.Some? then q.limit.value else DefaultLimit
  }

  /** `(page - 1) * limit`. */
  function Skip(q: ListQuery): nat {
    (PageOf(q) - 1) * LimitOf(q)
  }

  datatype Pagination = Pagination(total: nat, page: Positive, pages: nat)

  datatype Listing = Listing(plants: seq<Plant>, pagination: Pagination)

  /** The plants of the requested page. */
  function PagePlants(store: seq<Plant>, q: ListQuery): (r: seq<Plant>)
    ensures |r| <= LimitOf(q)
    ensures forall p :: p in r ==> p in store && Matches(BuildFilter(q), p)
    ensures NewestFirst(r)
  {
    var f := BuildFilter(q);
    var selected := Select(store, f);
    var sorted := SortNewest(selected);
    var page := Window(sorted, Skip(q), LimitOf(q));
    assert forall p :: p in page ==> p in store && Matches(f, p) by {
      forall p | p in page ensures p in store && Matches(f, p) {
        assert p in multiset(sorted);
        assert p in multiset(selected);
      }
    }
    page
  }

  /** The page is the slice at `(page-1)*limit` of the matching plants
      sorted newest first. */
  lemma PageIsSlice(store: seq<Plant>, q: ListQuery)
    ensures var r, sorted := PagePlants(store, q), SortNewest(Select(store, BuildFilter(q)));
      forall i :: 0 <= i < |r| ==> Skip(q) + i < |sorted| && r[i] == sorted[Skip(q) + i]
  {
    var sorted := SortNewest(Select(store, BuildFilter(q)));
    WindowEntries(PagePlants(store, q), sorted, Skip(q), LimitOf(q));
  }

  /** The page holds as many plants as are left from `(page-1)*limit`, up to
      `limit`. */
  lemma PageLength(store: seq<Plant>, q: ListQuery)
    ensures |PagePlants(store, q)| == PageSize(|Select(store, BuildFilter(q))|, Skip(q), LimitOf(q))
  {
    var sorted := SortNewest(Select(store, BuildFilter(q)));
    assert PagePlants(store, q) == Window(sorted, Skip(q), LimitOf(q));
  }

  lemma WindowEntries(r: seq<Plant>, s: seq<Plant>, skip: nat, limit: nat)
    requires r == Window(s, skip, limit)
    ensures forall i :: 0 <= i < |r| ==> skip + i < |s| && r[i] == s[skip + i]
  {
  }

  /** `GET /api/plants`. */
  function ListPlants(store: seq<Plant>, q: ListQuery): (r: Listing)
    ensures r.plants == PagePlants(store, q)
    ensures r.pagination.total == |Select(store, BuildFilter(q))|
    ensures r.pagination.page == PageOf(q)
    ensures r.pagination.pages == CeilDiv(r.pagination.total, LimitOf(q))
  {
    var total := CountMatching(store, BuildFilter(q));
    CountMatchingSelect(store, BuildFilter(q));
    Listing(PagePlants(store, q), Pagination(total, PageOf(q), CeilDiv(total, LimitOf(q))))
  }

  lemma MulMonotone(a: nat, b: nat, c: nat)
    requires a <= b
    ensures a * c <= b * c
  {
  }

  /** A page holds plants exactly when its number is at most the page
      count. */
  lemma PageNonEmptyIff(store: seq<Plant>, q: ListQuery)
    ensures |ListPlants(store, q).plants| > 0 <==> PageOf(q) <= ListPlants(store, q).pagination.pages
  {
    ListingSizes(store, q);
    PageSizeIff(|Select(store, BuildFilter(q))|, PageOf(q), LimitOf(q), Skip(q));
  }

  /** The window of a page is not empty exactly when the page number is
      within the page count. */
  lemma PageSizeIff(n: nat, page: Positive, limit: Positive, skip: nat)
    requires skip == (page - 1) * limit
    ensures PageSize(n, skip, limit) > 0 <==> page <= CeilDiv(n, limit)
  {
    var c, p := CeilDiv(n, limit), page - 1;
    if p < c {
      MulMonotone(p, c - 1, limit);
    } else {
      MulMonotone(c, p, limit);
    }
  }

  /** The page count and the page size of a listing, as numbers. */
  lemma ListingSizes(store: seq<Plant>, q: ListQuery)
    ensures var n := |Select(store, BuildFilter(q))|;
      && ListPlants(store, q).pagination.pages == CeilDiv(n, LimitOf(q))
      && |ListPlants(store, q).plants| == PageSize(n, Skip(q), LimitOf(q))
  {
    CountMatchingSelect(store, BuildFilter(q));
    PageLength(store, q);
  }

  /** 25 items at 12 a page. */
  lemma TwentyFiveNumbers(page: Positive, skip: nat)
    requires skip == (page - 1) * 12
    ensures CeilDiv(25, 12) == 3
    ensures page == 1 ==> PageSize(25, skip, 12) == 12
    ensures page == 3 ==> PageSize(25, skip, 12) == 1
    ensures page == 4 ==> PageSize(25, skip, 12) == 0
  {
  }

  /** 25 matching plants at 12 a page make 3 pages: the first holds 12, the
      third holds 1 and the fourth is empty. */
  lemma TwentyFiveAtTwelve(store: seq<Plant>, q: ListQuery)
    requires q.limit == Some(12)
    requires |Select(store, BuildFilter(q))| == 25
    ensures ListPlants(store, q).pagination.pages == 3
    ensures q.page.None? || q.page == Some(1) ==> |ListPlants(store, q).plants| == 12
    ensures q.page == Some(3) ==> |ListPlants(store, q).plants| == 1
    ensures q.page == Some(4) ==> |ListPlants(store, q).plants| == 0
  {
    ListingSizes(store, q);
    TwentyFiveNumbers(PageOf(q), Skip(q));
  }

  /** The seed plant "Tulsi (Holy Basil)" is found by the search `tulsi`
      and not by `zzz`. */
  lemma TulsiSearch(p: Plant)
    requires p.localName == "Tulsi (Holy Basil)"
    requires p.scientificName == "Ocimum sanctum" && p.familyName == "Lamiaceae"
    ensures Matches(BuildFilter(ListQuery(None, None, Some("tulsi"), None, None)), p)
    ensures !Matches(BuildFilter(ListQuery(None, None, Some("zzz"), None, None)), p)
  {
    TulsiFound(p);
    NoZ(p.localName);
    NoZ(p.scientificName);
    NoZ(p.familyName);
  }

  /** The lower-cased search text is a prefix of the lower-cased name. */
  lemma TulsiFound(p: Plant)
    requires p.localName == "Tulsi (Holy Basil)"
    ensures ContainsIgnoreCase(p.localName, "tulsi")
  {
    assert Lower("tulsi") <= Lower(p.localName);
  }

  /** A text without a 'z' or 'Z' does not contain "zzz", whatever its
      case. */
  lemma NoZ(s: string)
    requires forall i :: 0 <= i < |s| ==> s[i] != 'z' && s[i] != 'Z'
    ensures !ContainsIgnoreCase(s, "zzz")
  {
    var hay, needle := Lower(s), Lower("zzz");
    assert needle == "zzz";
    forall i: nat ensures !OccursAt(hay, needle, i) {
      if i + 3 <= |hay| {
        assert hay[i..i + 3][0] == LowerChar(s[i]) != 'z';
      }
    }
    ContainsIff(hay, needle);
  }

  datatype NotFound = NotFound

  /** `Plant.findById(id)`: the plant with that id, or 404 "Plant not
      found". */
  function FindById(store: seq<Plant>, id: PlantId): (r: Result<Plant, NotFound>)
    ensures r.Ok? ==> r.value in store && r.value.id == id
    ensures r.Err? <==> forall i :: 0 <= i < |store| ==> store[i].id != id
  {
    if store == [] then Err(NotFound)
    else if store[0].id == id then Ok(store[0])
    else FindById(store[1..], id)
  }

  /** Every id appears at most once in the collection. */
  predicate UniqueIds(store: seq<Plant>) {
    forall i, j :: 0 <= i < j < |store| ==> store[i].id != store[j].id
  }

  /** With unique ids, the plant found is the one stored under that id. */
  lemma {:induction false} FindByIdStored(store: seq<Plant>, k: nat)
    requires UniqueIds(store) && k < |store|
    ensures FindById(store, store[k].id) == Ok(store[k])
  {
    if k > 0 {
      assert store[0].id != store[k].id;
      FindByIdStored(store[1..], k - 1);
    }
  }

  /** The family names present in the collection. */
  function FamilyNames(store: seq<Plant>): set<string> {
    set i | 0 <= i < |store| :: store[i].familyName
  }

  predicate StrictlyAscending(xs: seq<string>) {
    forall i, j :: 0 <= i < j < |xs| ==> LexLess(xs[i], xs[j])
  }

  function InsertName(x: string, xs: seq<string>): (r: seq<string>)
    requires StrictlyAscending(xs)
    ensures StrictlyAscending(r)
    ensures forall y :: y in r <==> y == x || y in xs
  {
    if xs == [] then [x]
    else if x == xs[0] then xs
    else if LexLess(x, xs[0]) then
      assert forall j :: 0 < j < |xs| ==> LexLess(x, xs[j]) by {
        forall j | 0 < j < |xs| ensures LexLess(x, xs[j]) {
          LexLessTransitive(x, xs[0], xs[j]);
        }
      }
      [x] + xs
    else
      LexLessTotal(x, xs[0]);
      var rest := InsertName(x, xs[1..]);
      assert xs == [xs[0]] + xs[1..];
      assert forall k :: 0 <= k < |rest| ==> LexLess(xs[0], rest[k]) by {
        forall k | 0 <= k < |rest| ensures LexLess(xs[0], rest[k]) {
          assert rest[k] in rest;
        }
      }
      [xs[0]] + rest
  }

  /** `Plant.distinct('familyName')` followed by `.sort()`. */
  function FamilyList(store: seq<Plant>): (r: seq<string>)
    ensures StrictlyAscending(r)
    ensures forall y :: y in r <==> y in FamilyNames(store)
  {
    if store == [] then []
    else
      var rest := FamilyList(store[1..]);
      assert FamilyNames(store) == {store[0].familyName} + FamilyNames(store[1..]) by {
        forall y | y in FamilyNames(store) ensures y == store[0].familyName || y in FamilyNames(store[1..]) {
          var i :| 0 <= i < |store| && store[i].familyName == y;
          if i > 0 {
            assert store[1..][i - 1].familyName == y;
          }
        }
        forall y | y in FamilyNames(store[1..]) ensures y in FamilyNames(store) {
          var i :| 0 <= i < |store[1..]| && store[1..][i].familyName == y;
          assert store[i + 1].familyName == y;
        }
      }
      InsertName(store[0].familyName, rest)
  }

  /** A strictly ascending list has no duplicates. */
  lemma AscendingDistinct(xs: seq<string>)
    requires StrictlyAscending(xs)
    ensures forall i, j :: 0 <= i < j < |xs| ==> xs[i] != xs[j]
  {
    forall i, j | 0 <= i < j < |xs| ensures xs[i] != xs[j] {
      if xs[i] == xs[j] {
        LexLessIrreflexive(xs[i]);
      }
    }
  }

  /** A list without duplicates has as many entries as it has distinct
      values. */
  lemma {:induction false} DistinctCard(xs: seq<string>)
    requires forall i, j :: 0 <= i < j < |xs| ==> xs[i] != xs[j]
    ensures |set y | y in xs| == |xs|
  {
    if xs != [] {
      DistinctCard(xs[1..]);
      assert (set y | y in xs) == {xs[0]} + (set y | y in xs[1..]);
      assert xs[0] !in xs[1..];
    }
  }

  /** The family list names every family present exactly once. */
  lemma FamilyListCount(store: seq<Plant>)
    ensures |FamilyList(store)| == |FamilyNames(store)|
  {
    var r := FamilyList(store);
    AscendingDistinct(r);
    DistinctCard(r);
    assert (set y | y in r) == FamilyNames(store);
  }

  /** Number of plants of the given habit. */
  function CountHabit(store: seq<Plant>, h: Habit): nat {
    if store == [] then 0
    else (if store[0].habit == h then 1 else 0) + CountHabit(store[1..], h)
  }

  /** The counts of the habits in `hs`, added up. */
  function SumHabits(store: seq<Plant>, hs: seq<Habit>): nat {
    if hs == [] then 0 else CountHabit(store, hs[0]) + SumHabits(store, hs[1..])
  }

  /** How many entries of `hs` are the habit of `p`. */
  function Occurrences(p: Plant, hs: seq<Habit>): nat {
    if hs == [] then 0 else (if p.habit == hs[0] then 1 else 0) + Occurrences(p, hs[1..])
  }

  lemma {:induction false} SumHabitsFirst(store: seq<Plant>, hs: seq<Habit>)
    requires store != []
    ensures SumHabits(store, hs) == Occurrences(store[0], hs) + SumHabits(store[1..], hs)
  {
    if hs != [] {
      SumHabitsFirst(store, hs[1..]);
    }
  }

  /** In a list without repeats, a plant's habit occurs once or not at all. */
  lemma {:induction false} OccurrencesDistinct(p: Plant, hs: seq<Habit>)
    requires forall i, j :: 0 <= i < j < |hs| ==> hs[i] != hs[j]
    ensures Occurrences(p, hs) == if p.habit in hs then 1 else 0
  {
    if hs != [] {
      OccurrencesDistinct(p, hs[1..]);
      assert hs[0] !in hs[1..];
      assert p.habit in hs <==> p.habit == hs[0] || p.habit in hs[1..];
    }
  }

  lemma {:induction false} SumHabitsEmpty(hs: seq<Habit>)
    ensures SumHabits([], hs) == 0
  {
    if hs != [] {
      SumHabitsEmpty(hs[1..]);
    }
  }

  /** Every plant has exactly one of the six habits, so the six counts add
      up to the size of the collection. */
  lemma {:induction false} HabitCountsSum(store: seq<Plant>)
    ensures SumHabits(store, AllHabits) == |store|
  {
    if store == [] {
      SumHabitsEmpty(AllHabits);
    } else {
      SumHabitsFirst(store, AllHabits);
      HabitCountsSum(store[1..]);
      AllHabitsListed();
      OccurrencesDistinct(store[0], AllHabits);
      assert store[0].habit in AllHabits;
      assert Occurrences(store[0], AllHabits) == 1;
      assert SumHabits(store[1..], AllHabits) == |store| - 1;
    }
  }

  /** One result document of `$group: { _id: '$habit', count: { $sum: 1 } }`. */
  datatype HabitCount = HabitCount(habit: Habit, count: nat)

  function SumCounts(groups: seq<HabitCount>): nat {
    if groups == [] then 0 else groups[0].count + SumCounts(groups[1..])
  }

  /** The groups for the habits of `hs` that occur, in the order of `hs`. */
  function GroupHabits(store: seq<Plant>, hs: seq<Habit>): (r: seq<HabitCount>)
    ensures forall i :: 0 <= i < |r| ==>
      r[i].habit in hs && r[i].count == CountHabit(store, r[i].habit) && r[i].count > 0
    ensures SumCounts(r) == SumHabits(store, hs)
  {
    if hs == [] then []
    else
      var c := CountHabit(store, hs[0]);
      var rest := GroupHabits(store, hs[1..]);
      if c > 0 then
        assert ([HabitCount(hs[0], c)] + rest)[1..] == rest;
        [HabitCount(hs[0], c)] + rest
      else rest
  }

  /** Every habit of `hs` that occurs has a group. */
  lemma {:induction false} GroupHabitsComplete(store: seq<Plant>, hs: seq<Habit>, h: Habit)
    requires h in hs && CountHabit(store, h) > 0
    ensures exists i :: 0 <= i < |GroupHabits(store, hs)| && GroupHabits(store, hs)[i].habit == h
  {
    var r := GroupHabits(store, hs);
    var rest := GroupHabits(store, hs[1..]);
    if h == hs[0] {
      assert r[0].habit == h;
    } else {
      GroupHabitsComplete(store, hs[1..], h);
      var i :| 0 <= i < |rest| && rest[i].habit == h;
      if CountHabit(store, hs[0]) > 0 {
        assert r[i + 1] == rest[i];
      } else {
        assert r[i] == rest[i];
      }
    }
  }

  /** No habit has two groups. */
  predicate DistinctHabits(groups: seq<HabitCount>) {
    forall i, j :: 0 <= i < j < |groups| ==> groups[i].habit != groups[j].habit
  }

  /** A list of habits without repeats gives groups without repeats. */
  lemma {:induction false} GroupHabitsDistinct(store: seq<Plant>, hs: seq<Habit>)
    requires forall i, j :: 0 <= i < j < |hs| ==> hs[i] != hs[j]
    ensures DistinctHabits(GroupHabits(store, hs))
  {
    if hs != [] {
      GroupHabitsDistinct(store, hs[1..]);
      var rest := GroupHabits(store, hs[1..]);
      var r := GroupHabits(store, hs);
      assert hs[0] !in hs[1..];
      if CountHabit(store, hs[0]) > 0 {
        assert r == [HabitCount(hs[0], CountHabit(store, hs[0]))] + rest;
        forall i, j | 0 <= i < j < |r| ensures r[i].habit != r[j].habit {
          assert r[j] == rest[j - 1];
          assert rest[j - 1].habit in hs[1..];
          if i > 0 {
            assert r[i] == rest[i - 1];
            assert rest[i - 1].habit != rest[j - 1].habit;
          } else {
            assert r[i].habit == hs[0];
          }
        }
      } else {
        assert r == rest;
      }
    }
  }

  /** The enum list names every habit. */
  lemma AllHabitsListed()
    ensures forall h :: h in AllHabits
    ensures forall i, j :: 0 <= i < j < |AllHabits| ==> AllHabits[i] != AllHabits[j]
  {
    forall h ensures h in AllHabits {
      match h
      case Herb => assert AllHabits[0] == h;
      case Shrub => assert AllHabits[1] == h;
      case Tree => assert AllHabits[2] == h;
      case Aquatic => assert AllHabits[3] == h;
      case Grass => assert AllHabits[4] == h;
      case Climber => assert AllHabits[5] == h;
    }
  }

  /** `GET /api/plants/stats` `byHabit`: one group per habit present. */
  function HabitGroups(store: seq<Plant>): (r: seq<HabitCount>)
    ensures forall i :: 0 <= i < |r| ==> r[i].count == CountHabit(store, r[i].habit) > 0
    ensures forall h :: CountHabit(store, h) > 0 <==> exists i :: 0 <= i < |r| && r[i].habit == h
    ensures DistinctHabits(r)
    ensures SumCounts(r) == |store|
  {
    HabitCountsSum(store);
    AllHabitsListed();
    GroupHabitsDistinct(store, AllHabits);
    forall h | CountHabit(store, h) > 0
      ensures exists i :: 0 <= i < |GroupHabits(store, AllHabits)| && GroupHabits(store, AllHabits)[i].habit == h
    {
      GroupHabitsComplete(store, AllHabits, h);
    }
    GroupHabits(store, AllHabits)
  }

  /** Number of plants of the given family. */
  function CountFamily(store: seq<Plant>, name: string): nat {
    if store == [] then 0
    else (if store[0].familyName == name then 1 else 0) + CountFamily(store[1..], name)
  }

  /** A family that is present has a positive count. */
  lemma {:induction false} CountFamilyPresent(store: seq<Plant>, name: string)
    requires name in FamilyNames(store)
    ensures CountFamily(store, name) > 0
  {
    if store[0].familyName != name {
      var i :| 0 <= i < |store| && store[i].familyName == name;
      assert store[1..][i - 1].familyName == name;
      CountFamilyPresent(store[1..], name);
    }
  }

  /** One result document of `$group: { _id: '$familyName', count: { $sum: 1 } }`. */
  datatype FamilyCount = FamilyCount(name: string, count: nat)

  /** No family has two groups. */
  predicate DistinctNames(xs: seq<FamilyCount>) {
    forall i, j :: 0 <= i < j < |xs| ==> xs[i].name != xs[j].name
  }

  /** One group per family present. */
  function FamilyCounts(store: seq<Plant>): (r: seq<FamilyCount>)
    ensures forall e :: e in r ==>
      e.name in FamilyNames(store) && e.count == CountFamily(store, e.name) > 0
    ensures forall name :: name in FamilyNames(store) ==> FamilyCount(name, CountFamily(store, name)) in r
    ensures DistinctNames(r)
  {
    var names := FamilyList(store);
    var r := seq(|names|, i requires 0 <= i < |names| => FamilyCount(names[i], CountFamily(store, names[i])));
    AscendingDistinct(names);
    forall i | 0 <= i < |r| ensures r[i].count > 0 {
      assert names[i] in names;
      CountFamilyPresent(store, names[i]);
    }
    forall name | name in FamilyNames(store) ensures FamilyCount(name, CountFamily(store, name)) in r {
      var k :| 0 <= k < |names| && names[k] == name;
      assert r[k] == FamilyCount(name, CountFamily(store, name));
    }
    r
  }

  /** Ordered by count, largest first. */
  predicate ByCountDesc(xs: seq<FamilyCount>) {
    forall i, j :: 0 <= i < j < |xs| ==> xs[i].count >= xs[j].count
  }

  function InsertByCount(x: FamilyCount, xs: seq<FamilyCount>): (r: seq<FamilyCount>)
    requires ByCountDesc(xs)
    ensures ByCountDesc(r)
    ensures multiset(r) == multiset(xs) + multiset{x}
    ensures forall y :: y in r ==> y == x || y in xs
  {
    if xs == [] || x.count >= xs[0].count then
      PrependLargest(x, xs);
      [x] + xs
    else
      var rest := InsertByCount(x, xs[1..]);
      assert xs == [xs[0]] + xs[1..];
      assert rest == [] || rest[0].count <= xs[0].count by {
        if rest != [] {
          assert rest[0] in rest;
          if rest[0] != x {
            var k :| 0 <= k < |xs[1..]| && xs[1..][k] == rest[0];
            assert xs[k + 1] == rest[0];
          }
        }
      }
      PrependLargest(xs[0], rest);
      [xs[0]] + rest
  }

  /** A group no smaller than the head of a largest-first list can go in
      front of it. */
  lemma PrependLargest(x: FamilyCount, xs: seq<FamilyCount>)
    requires ByCountDesc(xs)
    requires xs == [] || xs[0].count <= x.count
    ensures ByCountDesc([x] + xs)
  {
    var r := [x] + xs;
    forall i, j | 0 <= i < j < |r| ensures r[i].count >= r[j].count {
      assert r[j] == xs[j - 1];
      if i > 0 {
        assert r[i] == xs[i - 1];
      } else if j > 1 {
        assert xs[0].count >= xs[j - 1].count;
      }
    }
  }

  /** `$sort: { count: -1 }`. */
  function SortByCount(xs: seq<FamilyCount>): (r: seq<FamilyCount>)
    ensures ByCountDesc(r)
    ensures multiset(r) == multiset(xs)
    ensures |r| == |xs|
  {
    if xs == [] then []
    else
      assert xs == [xs[0]] + xs[1..];
      InsertByCount(xs[0], SortByCount(xs[1..]))
  }

  const TopFamilyLimit := 10

  /** An entry of a sorted list missing from its first ten is outranked by
      all ten. */
  lemma PrefixDominates(sorted: seq<FamilyCount>, r: seq<FamilyCount>, e: FamilyCount)
    requires ByCountDesc(sorted) && e in sorted
    requires r == if |sorted| <= TopFamilyLimit then sorted else sorted[..TopFamilyLimit]
    requires forall i :: 0 <= i < |r| ==> r[i].name != e.name
    ensures |r| == TopFamilyLimit && forall i :: 0 <= i < |r| ==> r[i].count >= e.count
  {
    var k :| 0 <= k < |sorted| && sorted[k] == e;
    forall i | 0 <= i < |r| ensures sorted[i] != e {
      assert r[i] == sorted[i];
    }
    assert |r| <= k;
    forall i | 0 <= i < |r| ensures r[i].count >= e.count {
      assert r[i] == sorted[i];
    }
  }

  /** `GET /api/plants/stats` `topFamilies`: the ten largest families,
      largest first. A family left out is no larger than any listed. */
  function TopFamilies(store: seq<Plant>): (r: seq<FamilyCount>)
    ensures |r| <= TopFamilyLimit
    ensures ByCountDesc(r)
    ensures forall i :: 0 <= i < |r| ==>
      r[i].name in FamilyNames(store) && r[i].count == CountFamily(store, r[i].name) > 0
    ensures forall name :: name in FamilyNames(store) && (forall i :: 0 <= i < |r| ==> r[i].name != name) ==>
      |r| == TopFamilyLimit && forall i :: 0 <= i < |r| ==> r[i].count >= CountFamily(store, name)
    ensures DistinctNames(r)
  {
    var sorted := SortByCount(FamilyCounts(store));
    var r := if |sorted| <= TopFamilyLimit then sorted else sorted[..TopFamilyLimit];
    TopPrefix(store, sorted, r);
    TopDistinct(store, sorted, r);
    r
  }

  /** A list without repeats holds each value at most once. */
  lemma {:induction false} DistinctOnce<T>(xs: seq<T>, x: T)
    requires forall i, j :: 0 <= i < j < |xs| ==> xs[i] != xs[j]
    ensures multiset(xs)[x] <= 1
  {
    if xs != [] {
      assert xs == [xs[0]] + xs[1..];
      DistinctOnce(xs[1..], x);
      if x == xs[0] {
        forall k | 0 <= k < |xs[1..]| ensures xs[1..][k] != x {
          assert xs[1..][k] == xs[k + 1];
        }
      }
    }
  }

  /** A value at two positions is counted twice. */
  lemma TwiceCounted<T>(xs: seq<T>, i: nat, j: nat)
    requires i < j < |xs|
    ensures xs[i] == xs[j] ==> multiset(xs)[xs[i]] >= 2
  {
    if xs[i] == xs[j] {
      assert xs == xs[..j] + [xs[j]] + xs[j + 1..];
      assert xs[..j][i] == xs[i];
    }
  }

  /** In a list with one group per family, the name picks the group. */
  lemma NamePicksGroup(xs: seq<FamilyCount>, x: FamilyCount, y: FamilyCount)
    requires DistinctNames(xs) && x in xs && y in xs
    ensures x.name == y.name ==> x == y
  {
    var a :| 0 <= a < |xs| && xs[a] == x;
    var b :| 0 <= b < |xs| && xs[b] == y;
    if a < b {
      assert xs[a].name != xs[b].name;
    } else if b < a {
      assert xs[b].name != xs[a].name;
    }
  }

  /** Reordering the family groups keeps one group per family. */
  lemma PermutedDistinct(xs: seq<FamilyCount>, ys: seq<FamilyCount>)
    requires DistinctNames(xs) && multiset(ys) == multiset(xs)
    ensures DistinctNames(ys)
  {
    forall i, j | 0 <= i < j < |ys| ensures ys[i].name != ys[j].name {
      TwiceCounted(ys, i, j);
      DistinctOnce(xs, ys[i]);
      assert ys[i] in multiset(xs) && ys[j] in multiset(xs);
      NamePicksGroup(xs, ys[i], ys[j]);
    }
  }

  /** In a collection with unique ids, the id picks the plant. */
  lemma IdPicksPlant(xs: seq<Plant>, x: Plant, y: Plant)
    requires UniqueIds(xs) && x in xs && y in xs
    ensures x.id == y.id ==> x == y
  {
    var a :| 0 <= a < |xs| && xs[a] == x;
    var b :| 0 <= b < |xs| && xs[b] == y;
    if a < b {
      assert xs[a].id != xs[b].id;
    } else if b < a {
      assert xs[b].id != xs[a].id;
    }
  }

  /** Reordering a collection with unique ids keeps them unique. */
  lemma PermutedUniqueIds(xs: seq<Plant>, ys: seq<Plant>)
    requires UniqueIds(xs) && multiset(ys) == multiset(xs)
    ensures UniqueIds(ys)
  {
    forall i, j | 0 <= i < j < |ys| ensures ys[i].id != ys[j].id {
      TwiceCounted(ys, i, j);
      DistinctOnce(xs, ys[i]);
      assert ys[i] in multiset(xs) && ys[j] in multiset(xs);
      IdPicksPlant(xs, ys[i], ys[j]);
    }
  }

  /** Sorting newest first keeps the ids unique. */
  lemma SortedUniqueIds(s: seq<Plant>)
    ensures UniqueIds(s) ==> UniqueIds(SortNewest(s))
  {
    if UniqueIds(s) {
      PermutedUniqueIds(s, SortNewest(s));
    }
  }

  /** The first ten of the sorted family counts name each family once. */
  lemma TopDistinct(store: seq<Plant>, sorted: seq<FamilyCount>, r: seq<FamilyCount>)
    requires sorted == SortByCount(FamilyCounts(store))
    requires r == if |sorted| <= TopFamilyLimit then sorted else sorted[..TopFamilyLimit]
    ensures DistinctNames(r)
  {
    PermutedDistinct(FamilyCounts(store), sorted);
    forall i, j | 0 <= i < j < |r| ensures r[i].name != r[j].name {
      assert r[i] == sorted[i] && r[j] == sorted[j];
    }
  }

  /** The first ten of the sorted family counts are at most ten, largest
      first, counts of present families, and outrank every family left
      out. */
  lemma TopPrefix(store: seq<Plant>, sorted: seq<FamilyCount>, r: seq<FamilyCount>)
    requires sorted == SortByCount(FamilyCounts(store))
    requires r == if |sorted| <= TopFamilyLimit then sorted else sorted[..TopFamilyLimit]
    ensures |r| <= TopFamilyLimit
    ensures ByCountDesc(r)
    ensures forall i :: 0 <= i < |r| ==>
      r[i].name in FamilyNames(store) && r[i].count == CountFamily(store, r[i].name) > 0
    ensures forall name :: name in FamilyNames(store) && (forall i :: 0 <= i < |r| ==> r[i].name != name) ==>
      |r| == TopFamilyLimit && forall i :: 0 <= i < |r| ==> r[i].count >= CountFamily(store, name)
  {
    TopEntriesPresent(store, sorted, r);
    PrefixByCount(sorted, r);
    TopOutranksAll(store, sorted, r);
  }

  /** Every present family missing from the first ten of the sorted counts
      is outranked by all ten. */
  lemma TopOutranksAll(store: seq<Plant>, sorted: seq<FamilyCount>, r: seq<FamilyCount>)
    requires sorted == SortByCount(FamilyCounts(store))
    requires r == if |sorted| <= TopFamilyLimit then sorted else sorted[..TopFamilyLimit]
    ensures forall name :: name in FamilyNames(store) && (forall i :: 0 <= i < |r| ==> r[i].name != name) ==>
      |r| == TopFamilyLimit && forall i :: 0 <= i < |r| ==> r[i].count >= CountFamily(store, name)
  {
    forall name | name in FamilyNames(store) && (forall i :: 0 <= i < |r| ==> r[i].name != name)
      ensures |r| == TopFamilyLimit && forall i :: 0 <= i < |r| ==> r[i].count >= CountFamily(store, name)
    {
      TopOutranksRest(store, sorted, r, name);
    }
  }

  /** A prefix of a list sorted largest first is sorted the same way. */
  lemma PrefixByCount(sorted: seq<FamilyCount>, r: seq<FamilyCount>)
    requires ByCountDesc(sorted)
    requires r == if |sorted| <= TopFamilyLimit then sorted else sorted[..TopFamilyLimit]
    ensures |r| <= TopFamilyLimit && ByCountDesc(r)
  {
    forall i, j | 0 <= i < j < |r| ensures r[i].count >= r[j].count {
      assert r[i] == sorted[i] && r[j] == sorted[j];
    }
  }

  /** The first ten of the sorted family counts are counts of present
      families. */
  lemma TopEntriesPresent(store: seq<Plant>, sorted: seq<FamilyCount>, r: seq<FamilyCount>)
    requires sorted == SortByCount(FamilyCounts(store))
    requires r == if |sorted| <= TopFamilyLimit then sorted else sorted[..TopFamilyLimit]
    ensures forall i :: 0 <= i < |r| ==>
      r[i].name in FamilyNames(store) && r[i].count == CountFamily(store, r[i].name) > 0
  {
    var all := FamilyCounts(store);
    forall i | 0 <= i < |r| ensures r[i] in all {
      assert r[i] == sorted[i];
      assert sorted[i] in multiset(sorted);
    }
  }

  /** A present family missing from the first ten of the sorted counts is
      outranked by all ten. */
  lemma TopOutranksRest(store: seq<Plant>, sorted: seq<FamilyCount>, r: seq<FamilyCount>, name: string)
    requires sorted == SortByCount(FamilyCounts(store))
    requires r == if |sorted| <= TopFamilyLimit then sorted else sorted[..TopFamilyLimit]
    requires name in FamilyNames(store) && forall i :: 0 <= i < |r| ==> r[i].name != name
    ensures |r| == TopFamilyLimit && forall i :: 0 <= i < |r| ==> r[i].count >= CountFamily(store, name)
  {
    var all := FamilyCounts(store);
    var e := FamilyCount(name, CountFamily(store, name));
    assert e in all;
    assert multiset(sorted) == multiset(all);
    assert e in multiset(sorted);
    PrefixDominates(sorted, r, e);
  }

  /** The statistics document. */
  datatype Stats = Stats(total: nat, byHabit: seq<HabitCount>, topFamilies: seq<FamilyCount>)

  /** `GET /api/plants/stats`. */
  function PlantStats(store: seq<Plant>): (r: Stats)
    ensures r.total == |store| == SumCounts(r.byHabit)
    ensures |r.topFamilies| <= TopFamilyLimit && ByCountDesc(r.topFamilies)
    ensures r.byHabit == HabitGroups(store) && r.topFamilies == TopFamilies(store)
  {
    Stats(|store|, HabitGroups(store), TopFamilies(store))
  }
}
