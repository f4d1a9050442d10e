/** Merging sharded Stryker reports and scoring them per module (scripts/mutation/score.ts). */
module Scoring {
  import opened Digraph
  import opened Sequences
  import opened Wrappers

  datatype Status = Killed | Timeout | Survived | NoCoverage | Excluded

  datatype Mutant = Mutant(status: Status, line: nat, mutator: string)

  datatype ModuleId = ModuleId(name: string)

  datatype SurvivingMutant = SurvivingMutant(file: File, line: nat, mutator: string)

  /** A report: a JavaScript object from file to mutants, iterated in insertion order. */
  datatype Report = Report(files: map<File, seq<Mutant>>, order: seq<File>)
  {
    ghost predicate Keyed() {
      Elements(order) == files.Keys && Distinct(order)
    }
  }

  /** The module that owns a file, and the spelling of a path in the score, both given by modules.ts. */
  datatype Registry = Registry(owner: File -> Option<ModuleId>, normal: File -> File)

  datatype Record = Record(file: File, mutant: Mutant)

  function Records(file: File, mutants: seq<Mutant>): (r: seq<Record>)
    ensures |r| == |mutants| && forall i :: 0 <= i < |r| ==> r[i] == Record(file, mutants[i])
  {
    seq(|mutants|, i requires 0 <= i < |mutants| => Record(file, mutants[i]))
  }

  /** Everything a report says, file by file in iteration order. */
  function Flat(files: map<File, seq<Mutant>>, order: seq<File>): seq<Record>
    requires forall f :: f in order ==> f in files
  {
    if order == [] then []
    else Flat(files, order[..|order| - 1]) + Records(order[|order| - 1], files[order[|order| - 1]])
  }

  ghost function Contents(r: Report): multiset<Record>
    requires r.Keyed()
  {
    ElementsAreKeys(r);
    multiset(Flat(r.files, r.order))
  }

  lemma ElementsAreKeys(r: Report)
    requires r.Keyed()
    ensures forall f :: f in r.order <==> f in r.files
  {
  }

  // ---- merging ----

  lemma {:induction false} FlatUpdate(files: map<File, seq<Mutant>>, order: seq<File>, f: File, ms: seq<Mutant>)
    requires Distinct(order) && (forall x :: x in order ==> x in files) && f in files
    ensures var more := files[f := files[f] + ms];
      multiset(Flat(more, order)) ==
        multiset(Flat(files, order)) + (if f in order then multiset(Records(f, ms)) else multiset{})
  {
    if order != [] {
      var n := |order| - 1;
      assert order == order[..n] + [order[n]];
      if order[n] == f {
        assert f !in order[..n];
        FlatIgnores(files, order[..n], f, files[f] + ms);
        assert Records(f, files[f] + ms) == Records(f, files[f]) + Records(f, ms);
      } else {
        FlatUpdate(files, order[..n], f, ms);
      }
    }
  }

  /** `files[file].mutants.push(...)`, or a new entry. */
  function Push(r: Report, f: File, ms: seq<Mutant>): Report {
    if f in r.files then r.(files := r.files[f := r.files[f] + ms])
    else Report(r.files[f := ms], r.order + [f])
  }

  lemma {:induction false} FlatIgnores(files: map<File, seq<Mutant>>, order: seq<File>, f: File, ms: seq<Mutant>)
    requires (forall x :: x in order ==> x in files) && f !in order
    ensures Flat(files[f := ms], order) == Flat(files, order)
  {
    if order != [] {
      FlatIgnores(files, order[..|order| - 1], f, ms);
    }
  }

  lemma PushAdds(r: Report, f: File, ms: seq<Mutant>)
    requires r.Keyed()
    ensures Push(r, f, ms).Keyed()
    ensures Contents(Push(r, f, ms)) == Contents(r) + multiset(Records(f, ms))
  {
    ElementsAreKeys(r);
    var s := Push(r, f, ms);
    if f in r.files {
      FlatUpdate(r.files, r.order, f, ms);
    } else {
      AppendDistinct(r.order, f);
      FlatIgnores(r.files, r.order, f, ms);
      assert s.order[..|s.order| - 1] == r.order;
    }
  }

  ghost function TotalContents(reports: seq<Report>): multiset<Record>
    requires forall r :: r in reports ==> r.Keyed()
  {
    if reports == [] then multiset{}
    else TotalContents(reports[..|reports| - 1]) + Contents(reports[|reports| - 1])
  }

  /** `mergeReports`: every mutant of every report, and nothing else. */
  method MergeReports(reports: seq<Report>) returns (merged: Report)
    requires forall r :: r in reports ==> r.Keyed()
    ensures merged.Keyed() && Contents(merged) == TotalContents(reports)
  {
    merged := Report(map[], []);
    for i := 0 to |reports|
      invariant merged.Keyed() && Contents(merged) == TotalContents(reports[..i])
    {
      assert reports[..i + 1][..i] == reports[..i];
      merged := MergeOne(merged, reports[i]);
    }
    assert reports[..|reports|] == reports;
  }

  lemma FlatPrefix(r: Report, k: nat)
    requires k <= |r.order| && forall f :: f in r.order ==> f in r.files
    ensures multiset(Flat(r.files, r.order[..k])) ==
            if k == 0 then multiset{}
            else multiset(Flat(r.files, r.order[..k - 1])) + multiset(Records(r.order[k - 1], r.files[r.order[k - 1]]))
  {
    if k > 0 {
      assert r.order[..k][..k - 1] == r.order[..k - 1];
    }
  }

  lemma FlatAll(r: Report)
    requires r.Keyed() && forall f :: f in r.order ==> f in r.files
    ensures Contents(r) == multiset(Flat(r.files, r.order[..|r.order|]))
  {
    assert r.order[..|r.order|] == r.order;
  }

  method MergeOne(into: Report, report: Report) returns (merged: Report)
    requires into.Keyed() && report.Keyed()
    ensures merged.Keyed() && Contents(merged) == Contents(into) + Contents(report)
  {
    hide Flat, Contents;
    ElementsAreKeys(report);
    var order := report.order;
    merged := into;
    FlatPrefix(report, 0);
    FlatAll(report);
    for k := 0 to |order|
      invariant merged.Keyed()
      invariant Contents(merged) == Contents(into) + multiset(Flat(report.files, order[..k]))
    {
      FlatPrefix(report, k + 1);
      PushAdds(merged, order[k], report.files[order[k]]);
      merged := Push(merged, order[k], report.files[order[k]]);
    }
    assert order[..|order|] == order;
  }

  // ---- scoring ----

  datatype Bucket = Bucket(killed: nat, survived: nat, surviving: seq<SurvivingMutant>)

  predicate CountsAsKilled(s: Status) {
    s == Killed || s == Timeout
  }

  predicate CountsAsSurvived(s: Status) {
    s == Survived || s == NoCoverage
  }

  function Survivor(reg: Registry, r: Record): SurvivingMutant {
    SurvivingMutant(reg.normal(r.file), r.mutant.line, r.mutant.mutator)
  }

  /** One mutant falls into the bucket of its file's module. */
  function AddTo(reg: Registry, b: Bucket, r: Record): Bucket {
    if CountsAsKilled(r.mutant.status) then b.(killed := b.killed + 1)
    else if CountsAsSurvived(r.mutant.status) then
      b.(survived := b.survived + 1, surviving := b.surviving + [Survivor(reg, r)])
    else b
  }

  function Count(reg: Registry, b: Bucket, r: Record, id: ModuleId): Bucket {
    if reg.owner(r.file) == Some(id) then AddTo(reg, b, r) else b
  }

  /** What module `id` scores on a list of records. */
  function BucketOf(reg: Registry, rs: seq<Record>, id: ModuleId): Bucket {
    if rs == [] then Bucket(0, 0, [])
    else
      Count(reg, BucketOf(reg, rs[..|rs| - 1], id), rs[|rs| - 1], id)
  }

  function CountOf(reg: Registry, rs: seq<Record>, id: ModuleId, statuses: set<Status>): nat {
    if rs == [] then 0
    else
      var r := rs[|rs| - 1];
      CountOf(reg, rs[..|rs| - 1], id, statuses) +
      (if reg.owner(r.file) == Some(id) && r.mutant.status in statuses then 1 else 0)
  }

  /**
   A timeout counts as killed and an uncovered mutant as survived; every other status leaves the
   denominator, and each survivor is listed once.
   */
  lemma {:induction false} BucketTallies(reg: Registry, rs: seq<Record>, id: ModuleId)
    ensures var b := BucketOf(reg, rs, id);
      && b.killed == CountOf(reg, rs, id, {Killed, Timeout})
      && b.survived == CountOf(reg, rs, id, {Survived, NoCoverage}) == |b.surviving|
      && b.killed + b.survived + CountOf(reg, rs, id, {Excluded}) ==
         CountOf(reg, rs, id, {Killed, Timeout, Survived, NoCoverage, Excluded})
  {
    if rs != [] {
      BucketTallies(reg, rs[..|rs| - 1], id);
    }
  }

  datatype ModuleScore = ModuleScore(id: ModuleId, score: nat, killed: nat, survived: nat, total: nat,
                                     surviving: seq<SurvivingMutant>)

  /** A percentage in hundredths, rounded half up; a module without mutants scores 0. */
  function Hundredths(killed: nat, total: nat): (score: nat)
    requires killed <= total
    ensures score <= 10000
    ensures total > 0 ==> 2 * total * score <= 2 * 10000 * killed + total < 2 * total * (score + 1)
  {
    if total == 0 then 0
    else
      var score := (2 * 10000 * killed + total) / (2 * total);
      RoundsToNearest(killed, total, score);
      score
  }

  lemma RoundsToNearest(killed: nat, total: nat, score: nat)
    requires 0 < total && killed <= total && score == (2 * 10000 * killed + total) / (2 * total)
    ensures score <= 10000
    ensures 2 * total * score <= 2 * 10000 * killed + total < 2 * total * (score + 1)
  {
    var num, den := 20000 * killed + total, 2 * total;
    QuotientBounds(num, den, score);
    ProductGrows(den, score, 10001);
  }

  lemma QuotientBounds(num: nat, den: nat, q: nat)
    requires den > 0 && q == num / den
    ensures den * q <= num < den * (q + 1)
  {
    assert num == den * q + num % den;
  }

  lemma ProductGrows(den: nat, q: nat, limit: nat)
    ensures q >= limit ==> den * q >= den * limit
  {
    if q >= limit {
      assert den * q == den * limit + den * (q - limit);
    }
  }

  function ScoreOf(id: ModuleId, b: Bucket, le: (SurvivingMutant, SurvivingMutant) -> bool): ModuleScore
    requires TotalPreorder(le)
  {
    var total := b.killed + b.survived;
    ModuleScore(id, Hundredths(b.killed, total), b.killed, b.survived, total, Sort(b.surviving, le))
  }

  /** `x` is mentioned before `y` is. */
  ghost predicate MentionedBefore(ids: seq<ModuleId>, x: ModuleId, y: ModuleId) {
    exists k :: 0 <= k < |ids| && ids[k] == x && y !in ids[..k + 1]
  }

  /** The ids in order of first mention. */
  function Dedup(ids: seq<ModuleId>): (r: seq<ModuleId>)
    ensures forall x :: x in r <==> x in ids
    ensures forall i, j :: 0 <= i < j < |r| ==> MentionedBefore(ids, r[i], r[j])
  {
    if ids == [] then []
    else
      var n := |ids| - 1;
      var r := Dedup(ids[..n]);
      assert ids == ids[..n] + [ids[n]];
      MentionsRemain(ids, r);
      if ids[n] in r then r else r + [ids[n]]
  }

  lemma MentionRemains(ids: seq<ModuleId>, n: nat, x: ModuleId, y: ModuleId)
    requires n <= |ids| && MentionedBefore(ids[..n], x, y)
    ensures MentionedBefore(ids, x, y)
  {
    var k :| 0 <= k < n && ids[..n][k] == x && y !in ids[..n][..k + 1];
    assert ids[..n][..k + 1] == ids[..k + 1];
  }

  lemma NewIsLast(ids: seq<ModuleId>, x: ModuleId)
    requires ids != [] && x in ids[..|ids| - 1] && ids[|ids| - 1] !in ids[..|ids| - 1]
    ensures MentionedBefore(ids, x, ids[|ids| - 1])
  {
    var n := |ids| - 1;
    var k :| 0 <= k < n && ids[..n][k] == x;
    assert ids[..n][..k + 1] == ids[..k + 1];
  }

  lemma MentionsRemain(ids: seq<ModuleId>, r: seq<ModuleId>)
    requires ids != [] && (forall x :: x in r <==> x in ids[..|ids| - 1])
    requires forall i, j :: 0 <= i < j < |r| ==> MentionedBefore(ids[..|ids| - 1], r[i], r[j])
    ensures forall i, j :: 0 <= i < j < |r| ==> MentionedBefore(ids, r[i], r[j])
    ensures ids[|ids| - 1] !in r ==> forall i :: 0 <= i < |r| ==> MentionedBefore(ids, r[i], ids[|ids| - 1])
  {
    hide MentionedBefore;
    forall i, j | 0 <= i < j < |r|
      ensures MentionedBefore(ids, r[i], r[j])
    {
      MentionRemains(ids, |ids| - 1, r[i], r[j]);
    }
    forall i | 0 <= i < |r| && ids[|ids| - 1] !in r
      ensures MentionedBefore(ids, r[i], ids[|ids| - 1])
    {
      assert r[i] in r;
      NewIsLast(ids, r[i]);
    }
  }

  /** The score sheet a list of records amounts to. */
  function Summary(reg: Registry, rs: seq<Record>, ids: seq<ModuleId>,
                   le: (SurvivingMutant, SurvivingMutant) -> bool): seq<ModuleScore>
    requires TotalPreorder(le)
  {
    var rows := Dedup(ids);
    seq(|rows|, i requires 0 <= i < |rows| => ScoreOf(rows[i], BucketOf(reg, rs, rows[i]), le))
  }

  // ---- what a score sheet says ----

  /** `compareMutants`: by file, then by line, then by mutator. */
  function ByPlace(fileLe: (File, File) -> bool, nameLe: (string, string) -> bool):
      (order: (SurvivingMutant, SurvivingMutant) -> bool)
    requires TotalPreorder(fileLe) && TotalPreorder(nameLe)
    ensures TotalPreorder(order)
    ensures TotalOrder(fileLe) && TotalOrder(nameLe) ==> TotalOrder(order)
  {
    var order := (a: SurvivingMutant, b: SurvivingMutant) =>
      if !fileLe(a.file, b.file) || !fileLe(b.file, a.file) then fileLe(a.file, b.file)
      else if a.line != b.line then a.line < b.line
      else nameLe(a.mutator, b.mutator);
    assert forall a, b :: order(a, b) <==> InPlace(a, b, fileLe, nameLe) by {
      hide TotalOrder;
    }
    PlacesAreOrdered(order, fileLe, nameLe);
    order
  }

  /** `a` does not come after `b`. */
  ghost predicate InPlace(a: SurvivingMutant, b: SurvivingMutant, fileLe: (File, File) -> bool,
                          nameLe: (string, string) -> bool) {
    && fileLe(a.file, b.file)
    && (fileLe(b.file, a.file) ==> a.line < b.line || (a.line == b.line && nameLe(a.mutator, b.mutator)))
  }

  lemma PlacesAreOrdered(order: (SurvivingMutant, SurvivingMutant) -> bool, fileLe: (File, File) -> bool,
                         nameLe: (string, string) -> bool)
    requires TotalPreorder(fileLe) && TotalPreorder(nameLe)
    requires forall a, b :: order(a, b) <==> InPlace(a, b, fileLe, nameLe)
    ensures TotalPreorder(order)
    ensures TotalOrder(fileLe) && TotalOrder(nameLe) ==> TotalOrder(order)
  {
  }

  /** How often the report shows `v` as a survivor of module `id`. */
  function Sightings(reg: Registry, rs: seq<Record>, id: ModuleId, v: SurvivingMutant): nat {
    if rs == [] then 0
    else
      var r := rs[|rs| - 1];
      Sightings(reg, rs[..|rs| - 1], id, v) +
      (if reg.owner(r.file) == Some(id) && r.mutant.status in {Survived, NoCoverage} && reg.normal(r.file) == v.file &&
          r.mutant.line == v.line && r.mutant.mutator == v.mutator then 1 else 0)
  }

  /** The score is the share of killed mutants to the nearest hundredth of a percent, halves upwards. */
  ghost predicate ScoresKilled(row: ModuleScore) {
    if row.total == 0 then row.score == 0
    else 2 * row.total * row.score <= 20000 * row.killed + row.total < 2 * row.total * (row.score + 1)
  }

  /** What a row says, counted from the records alone. */
  ghost predicate TrueRow(reg: Registry, rs: seq<Record>, row: ModuleScore, fileLe: (File, File) -> bool,
                          nameLe: (string, string) -> bool) {
    && row.killed == CountOf(reg, rs, row.id, {Killed, Timeout})
    && row.survived == CountOf(reg, rs, row.id, {Survived, NoCoverage})
    && row.total == row.killed + row.survived
    && ScoresKilled(row)
    && (forall i, j :: 0 <= i < j < |row.surviving| ==> InPlace(row.surviving[i], row.surviving[j], fileLe, nameLe))
    && forall v :: multiset(row.surviving)[v] == Sightings(reg, rs, row.id, v)
  }

  /** One row for each module, in order of first mention. */
  ghost predicate TrueSheet(reg: Registry, rs: seq<Record>, ids: seq<ModuleId>, scores: seq<ModuleScore>,
                            fileLe: (File, File) -> bool, nameLe: (string, string) -> bool) {
    && (forall i :: 0 <= i < |scores| ==> scores[i].id in ids && TrueRow(reg, rs, scores[i], fileLe, nameLe))
    && (forall id :: id in ids ==> exists i :: 0 <= i < |scores| && scores[i].id == id)
    && forall i, j :: 0 <= i < j < |scores| ==> MentionedBefore(ids, scores[i].id, scores[j].id)
  }

  lemma {:induction false} SurvivorsAreSeen(reg: Registry, rs: seq<Record>, id: ModuleId, v: SurvivingMutant)
    ensures multiset(BucketOf(reg, rs, id).surviving)[v] == Sightings(reg, rs, id, v)
  {
    if rs != [] {
      SurvivorsAreSeen(reg, rs[..|rs| - 1], id, v);
    }
  }

  lemma RowIsTrue(reg: Registry, rs: seq<Record>, id: ModuleId, fileLe: (File, File) -> bool,
                  nameLe: (string, string) -> bool)
    requires TotalPreorder(fileLe) && TotalPreorder(nameLe)
    ensures var row := ScoreOf(id, BucketOf(reg, rs, id), ByPlace(fileLe, nameLe));
      row.id == id && TrueRow(reg, rs, row, fileLe, nameLe)
  {
    hide BucketOf, CountOf, TotalPreorder, Sightings, ByPlace, Sort, InPlace;
    BucketTallies(reg, rs, id);
    var row := ScoreOf(id, BucketOf(reg, rs, id), ByPlace(fileLe, nameLe));
    SurvivorsInPlace(row.surviving, fileLe, nameLe);
    forall v
      ensures multiset(row.surviving)[v] == Sightings(reg, rs, id, v)
    {
      SurvivorsAreSeen(reg, rs, id, v);
    }
  }

  lemma SurvivorsInPlace(s: seq<SurvivingMutant>, fileLe: (File, File) -> bool, nameLe: (string, string) -> bool)
    requires TotalPreorder(fileLe) && TotalPreorder(nameLe) && Sorted(s, ByPlace(fileLe, nameLe))
    ensures forall i, j :: 0 <= i < j < |s| ==> InPlace(s[i], s[j], fileLe, nameLe)
  {
    forall i, j | 0 <= i < j < |s|
      ensures InPlace(s[i], s[j], fileLe, nameLe)
    {
      assert ByPlace(fileLe, nameLe)(s[i], s[j]);
    }
  }

  /** The score sheet is what the records say. */
  lemma SummaryIsTrue(reg: Registry, rs: seq<Record>, ids: seq<ModuleId>, fileLe: (File, File) -> bool,
                      nameLe: (string, string) -> bool)
    requires TotalPreorder(fileLe) && TotalPreorder(nameLe)
    ensures TrueSheet(reg, rs, ids, Summary(reg, rs, ids, ByPlace(fileLe, nameLe)), fileLe, nameLe)
  {
    hide BucketOf, TotalPreorder, TrueRow, ScoreOf, MentionedBefore, ByPlace;
    var rows, scores := Dedup(ids), Summary(reg, rs, ids, ByPlace(fileLe, nameLe));
    forall i | 0 <= i < |scores|
      ensures scores[i].id == rows[i] && TrueRow(reg, rs, scores[i], fileLe, nameLe)
    {
      RowIsTrue(reg, rs, rows[i], fileLe, nameLe);
    }
    forall id | id in ids
      ensures exists i :: 0 <= i < |scores| && scores[i].id == id
    {
      var i :| 0 <= i < |rows| && rows[i] == id;
      assert scores[i].id == id;
    }
  }

  ghost predicate Bucketed(reg: Registry, buckets: map<ModuleId, Bucket>, rows: seq<ModuleId>, rs: seq<Record>) {
    (forall id :: id in buckets <==> id in rows) && forall id :: id in buckets ==> buckets[id] == BucketOf(reg, rs, id)
  }

  lemma BucketedStep(reg: Registry, buckets: map<ModuleId, Bucket>, rows: seq<ModuleId>, rs: seq<Record>, r: Record)
    requires Bucketed(reg, buckets, rows, rs)
    ensures var o := reg.owner(r.file);
      if o.Some? && o.value in buckets
      then Bucketed(reg, buckets[o.value := AddTo(reg, buckets[o.value], r)], rows, rs + [r])
      else Bucketed(reg, buckets, rows, rs + [r])
  {
  }

  /** `summarizeReport` */
  method SummarizeReport(reg: Registry, report: Report, ids: seq<ModuleId>, fileLe: (File, File) -> bool,
                         nameLe: (string, string) -> bool) returns (scores: seq<ModuleScore>)
    requires report.Keyed() && TotalPreorder(fileLe) && TotalPreorder(nameLe)
    ensures scores == Summary(reg, Flat(report.files, report.order), ids, ByPlace(fileLe, nameLe))
    ensures TrueSheet(reg, Flat(report.files, report.order), ids, scores, fileLe, nameLe)
  {
    hide TotalPreorder, BucketOf, TrueSheet, MentionedBefore, ScoreOf, Bucketed, ByPlace;
    ElementsAreKeys(report);
    SummaryIsTrue(reg, Flat(report.files, report.order), ids, fileLe, nameLe);
    var rows := Dedup(ids);
    var buckets: map<ModuleId, Bucket> := map id | id in rows :: Bucket(0, 0, []);
    NoRecords(reg, rows);
    for k := 0 to |report.order|
      invariant Bucketed(reg, buckets, rows, Flat(report.files, report.order[..k]))
    {
      var file := report.order[k];
      assert report.order[..k + 1][..k] == report.order[..k];
      buckets := FillBucket(reg, file, report.files[file], buckets, rows, Flat(report.files, report.order[..k]));
    }
    assert report.order[..|report.order|] == report.order;
    AllBucketed(reg, buckets, rows, Flat(report.files, report.order));
    scores := seq(|rows|, i requires 0 <= i < |rows| =>
                    ScoreOf(rows[i], buckets[rows[i]], ByPlace(fileLe, nameLe)));
  }

  lemma AllBucketed(reg: Registry, buckets: map<ModuleId, Bucket>, rows: seq<ModuleId>, rs: seq<Record>)
    requires Bucketed(reg, buckets, rows, rs)
    ensures forall i :: 0 <= i < |rows| ==> rows[i] in buckets && buckets[rows[i]] == BucketOf(reg, rs, rows[i])
  {
  }

  lemma NoRecords(reg: Registry, rows: seq<ModuleId>)
    ensures Bucketed(reg, map id | id in rows :: Bucket(0, 0, []), rows, [])
  {
  }

  method FillBucket(reg: Registry, file: File, mutants: seq<Mutant>, buckets: map<ModuleId, Bucket>,
                    ghost rows: seq<ModuleId>, ghost rs: seq<Record>) returns (filled: map<ModuleId, Bucket>)
    requires Bucketed(reg, buckets, rows, rs)
    ensures Bucketed(reg, filled, rows, rs + Records(file, mutants))
  {
    hide BucketOf, Bucketed;
    filled := buckets;
    var owner := reg.owner(file);
    assert rs + Records(file, mutants[..0]) == rs;
    for m := 0 to |mutants|
      invariant Bucketed(reg, filled, rows, rs + Records(file, mutants[..m]))
    {
      assert rs + Records(file, mutants[..m + 1]) == (rs + Records(file, mutants[..m])) + [Record(file, mutants[m])];
      BucketedStep(reg, filled, rows, rs + Records(file, mutants[..m]), Record(file, mutants[m]));
      if owner.Some? && owner.value in filled {
        filled := filled[owner.value := AddTo(reg, filled[owner.value], Record(file, mutants[m]))];
      }
    }
    assert mutants[..|mutants|] == mutants;
  }

  // ---- the order of mutants does not matter ----

  ghost predicate SameBucket(a: Bucket, b: Bucket) {
    a.killed == b.killed && a.survived == b.survived && multiset(a.surviving) == multiset(b.surviving)
  }

  lemma CountCommutes(reg: Registry, a: Bucket, b: Bucket, r: Record, s: Record, id: ModuleId)
    requires SameBucket(a, Count(reg, b, r, id))
    ensures SameBucket(Count(reg, a, s, id), Count(reg, Count(reg, b, s, id), r, id))
  {
    var sa, sb := Count(reg, a, s, id).surviving, Count(reg, Count(reg, b, s, id), r, id).surviving;
    assert multiset(sa) == multiset(sb);
  }

  /** Taking one record out of the middle and counting it last leaves the same bucket. */
  lemma {:induction false} BucketSplit(reg: Registry, rs: seq<Record>, k: nat, id: ModuleId)
    requires k < |rs|
    ensures SameBucket(BucketOf(reg, rs, id), Count(reg, BucketOf(reg, rs[..k] + rs[k + 1..], id), rs[k], id))
  {
    var n := |rs| - 1;
    var rest := rs[..k] + rs[k + 1..];
    if k == n {
      assert rest == rs[..n];
    } else {
      BucketSplit(reg, rs[..n], k, id);
      RemoveBeforeLast(rs, k);
      CountCommutes(reg, BucketOf(reg, rs[..n], id), BucketOf(reg, rest[..|rest| - 1], id), rs[k], rs[n], id);
    }
  }

  lemma {:induction false} BucketOfPermutation(reg: Registry, a: seq<Record>, b: seq<Record>, id: ModuleId)
    requires multiset(a) == multiset(b)
    ensures SameBucket(BucketOf(reg, a, id), BucketOf(reg, b, id))
  {
    SamePermutation(a, b);
    if a != [] {
      var k := MatchLast(a, b);
      BucketOfPermutation(reg, a[..|a| - 1], b[..k] + b[k + 1..], id);
      BucketSplit(reg, b, k, id);
    }
  }

  lemma ScoreOfSameBucket(id: ModuleId, a: Bucket, b: Bucket, le: (SurvivingMutant, SurvivingMutant) -> bool)
    requires SameBucket(a, b) && TotalOrder(le)
    ensures ScoreOf(id, a, le) == ScoreOf(id, b, le)
  {
    SortedIsUnique(Sort(a.surviving, le), Sort(b.surviving, le), le);
  }

  /** A score sheet depends only on which mutants were reported, not on their order. */
  lemma SummaryOfPermutation(reg: Registry, a: seq<Record>, b: seq<Record>, ids: seq<ModuleId>,
                             le: (SurvivingMutant, SurvivingMutant) -> bool)
    requires multiset(a) == multiset(b) && TotalOrder(le)
    ensures Summary(reg, a, ids, le) == Summary(reg, b, ids, le)
  {
    hide BucketOf, TotalPreorder, Sorted, ScoreOf;
    var rows := Dedup(ids);
    forall i | 0 <= i < |rows|
      ensures ScoreOf(rows[i], BucketOf(reg, a, rows[i]), le) == ScoreOf(rows[i], BucketOf(reg, b, rows[i]), le)
    {
      BucketOfPermutation(reg, a, b, rows[i]);
      ScoreOfSameBucket(rows[i], BucketOf(reg, a, rows[i]), BucketOf(reg, b, rows[i]), le);
    }
  }

  // ---- sharding and merging is invisible ----

  /** What the job for slice `i` reports: the entries of the files in its slice. */
  function ShardReport(files: map<File, seq<Mutant>>, order: seq<File>, slot: File -> nat, i: nat): (r: Report)
    requires forall f :: f in order ==> f in files
    ensures forall f :: f in r.order <==> f in order && slot(f) == i
    ensures r.files == map f | f in order && slot(f) == i :: files[f]
  {
    if order == [] then Report(map[], [])
    else
      var n := |order| - 1;
      var r := ShardReport(files, order[..n], slot, i);
      assert order == order[..n] + [order[n]];
      if slot(order[n]) == i then Report(r.files[order[n] := files[order[n]]], r.order + [order[n]]) else r
  }

  lemma {:induction false} ShardReportKeyed(files: map<File, seq<Mutant>>, order: seq<File>, slot: File -> nat, i: nat)
    requires (forall f :: f in order ==> f in files) && Distinct(order)
    ensures ShardReport(files, order, slot, i).Keyed()
  {
    if order != [] {
      var n := |order| - 1;
      ShardReportKeyed(files, order[..n], slot, i);
      if slot(order[n]) == i {
        AppendDistinct(ShardReport(files, order[..n], slot, i).order, order[n]);
      }
    }
  }

  ghost function ShardContents(files: map<File, seq<Mutant>>, order: seq<File>, slot: File -> nat,
                               n: nat): multiset<Record>
    requires (forall f :: f in order ==> f in files) && Distinct(order)
  {
    if n == 0 then multiset{}
    else
      ShardReportKeyed(files, order, slot, n - 1);
      ShardContents(files, order, slot, n - 1) + Contents(ShardReport(files, order, slot, n - 1))
  }

  lemma ShardGrows(files: map<File, seq<Mutant>>, order: seq<File>, slot: File -> nat, i: nat)
    requires order != [] && (forall f :: f in order ==> f in files) && Distinct(order)
    ensures var k := |order| - 1;
      var r, s := ShardReport(files, order[..k], slot, i), ShardReport(files, order, slot, i);
      r.Keyed() && s.Keyed() && Contents(s) == Contents(r) +
        (if slot(order[k]) == i then multiset(Records(order[k], files[order[k]])) else multiset{})
  {
    var k := |order| - 1;
    ShardReportKeyed(files, order, slot, i);
    ShardReportKeyed(files, order[..k], slot, i);
    var r, s := ShardReport(files, order[..k], slot, i), ShardReport(files, order, slot, i);
    if slot(order[k]) == i {
      FlatIgnores(r.files, r.order, order[k], files[order[k]]);
      assert s.order[..|s.order| - 1] == r.order;
    }
  }

  lemma {:induction false} ShardContentsGrow(files: map<File, seq<Mutant>>, order: seq<File>, slot: File -> nat, n: nat)
    requires order != [] && (forall f :: f in order ==> f in files) && Distinct(order)
    ensures var k := |order| - 1;
      ShardContents(files, order, slot, n) == ShardContents(files, order[..k], slot, n) +
        (if slot(order[k]) < n then multiset(Records(order[k], files[order[k]])) else multiset{})
  {
    hide Contents, ShardReport;
    if n > 0 {
      ShardContentsGrow(files, order, slot, n - 1);
      ShardGrows(files, order, slot, n - 1);
    }
  }

  lemma {:induction false} ShardsHoldEverything(files: map<File, seq<Mutant>>, order: seq<File>, slot: File -> nat,
                                                n: nat)
    requires (forall f :: f in order ==> f in files && slot(f) < n) && Distinct(order)
    ensures ShardContents(files, order, slot, n) == multiset(Flat(files, order))
  {
    if order == [] {
      NothingToShard(files, order, slot, n);
    } else {
      ShardContentsGrow(files, order, slot, n);
      ShardsHoldEverything(files, order[..|order| - 1], slot, n);
    }
  }

  lemma {:induction false} NothingToShard(files: map<File, seq<Mutant>>, order: seq<File>, slot: File -> nat, n: nat)
    requires order == []
    ensures ShardContents(files, order, slot, n) == multiset{}
  {
    if n > 0 {
      NothingToShard(files, order, slot, n - 1);
    }
  }

  ghost predicate AreShardsOf(reports: seq<Report>, report: Report, slot: File -> nat, n: nat) {
    && |reports| == n
    && forall i :: 0 <= i < n ==>
         (forall f :: f in report.order ==> f in report.files) &&
         reports[i] == ShardReport(report.files, report.order, slot, i)
  }

  lemma {:induction false} ShardsTotal(reports: seq<Report>, report: Report, slot: File -> nat, n: nat, upTo: nat)
    requires report.Keyed() && AreShardsOf(reports, report, slot, n) && upTo <= n
    requires forall r :: r in reports ==> r.Keyed()
    requires forall f :: f in report.order ==> f in report.files
    ensures TotalContents(reports[..upTo]) == ShardContents(report.files, report.order, slot, upTo)
  {
    if upTo > 0 {
      assert reports[..upTo][..upTo - 1] == reports[..upTo - 1];
      assert reports[upTo - 1] in reports;
      ShardsTotal(reports, report, slot, n, upTo - 1);
    }
  }

  lemma {:induction false} TotalOfPermutation(a: seq<Report>, b: seq<Report>)
    requires multiset(a) == multiset(b) && (forall r :: r in a ==> r.Keyed()) && (forall r :: r in b ==> r.Keyed())
    ensures TotalContents(a) == TotalContents(b)
  {
    SamePermutation(a, b);
    if a != [] {
      var k := MatchLast(a, b);
      TotalOfPermutation(a[..|a| - 1], b[..k] + b[k + 1..]);
      TotalOfSplit(b, k);
    }
  }

  lemma {:induction false} TotalOfSplit(b: seq<Report>, k: nat)
    requires k < |b| && forall r :: r in b ==> r.Keyed()
    ensures TotalContents(b) == TotalContents(b[..k] + b[k + 1..]) + Contents(b[k])
  {
    hide Contents;
    var n := |b| - 1;
    var rest := b[..k] + b[k + 1..];
    if k == n {
      assert rest == b[..n];
    } else {
      TotalOfSplit(b[..n], k);
      RemoveBeforeLast(b, k);
    }
  }

  /**
   Slicing the sources into jobs and merging the jobs' reports, in whatever order they arrive, gives
   the score sheet of one unsharded run.
   */
  lemma ShardedScoresMatch(reg: Registry, report: Report, slot: File -> nat, n: nat, shards: seq<Report>,
                           arrived: seq<Report>, merged: Report, ids: seq<ModuleId>,
                           le: (SurvivingMutant, SurvivingMutant) -> bool)
    requires report.Keyed() && TotalOrder(le) && (forall f :: f in report.order ==> slot(f) < n)
    requires AreShardsOf(shards, report, slot, n) && multiset(arrived) == multiset(shards)
    requires (forall r :: r in arrived ==> r.Keyed()) && merged.Keyed()
    requires Contents(merged) == TotalContents(arrived)
    ensures Summary(reg, Flat(merged.files, merged.order), ids, le) ==
            Summary(reg, Flat(report.files, report.order), ids, le)
  {
    ElementsAreKeys(report);
    SamePermutation(shards, arrived);
    TotalOfPermutation(arrived, shards);
    ShardsTotal(shards, report, slot, n, n);
    assert shards[..n] == shards;
    ShardsHoldEverything(report.files, report.order, slot, n);
    SummaryOfPermutation(reg, Flat(merged.files, merged.order), Flat(report.files, report.order), ids, le);
  }
}
