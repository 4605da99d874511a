/** The subject pickers of the teacher and group editors: subjects bucketed by degree (teacher
    editor) or by semester within one degree (group editor), semesters in ascending order. Each
    bucket is built the way the editors build it, by walking the list and appending each subject
    to the bucket of its key, creating the bucket on the key's first appearance. */
module SubjectPicker {
  import opened Domain
  import opened Sorting
  import opened EntityLists

  datatype SemesterBucket = SemesterBucket(semester: int, subjects: seq<Subject>)

  /** One degree's entry: the degree id the subjects carry, the degree found under it (absent when
      no degree has that id) and its semester buckets. */
  datatype DegreeBucket = DegreeBucket(degreeId: string, degree: Option<Degree>, semesters: seq<SemesterBucket>)

  function SubjectSemester(s: Subject): int { s.semester }
  function SubjectDegreeId(s: Subject): string { s.degreeId }

  // ---------------------------------------------------------------- specification

  /** The subjects of `list` whose key is `k`, in list order. */
  function OfKey<K(==,!new)>(list: seq<Subject>, key: Subject -> K, k: K): (r: seq<Subject>)
    ensures forall s :: s in r <==> s in list && key(s) == k
  {
    if list == [] then []
    else
      var init, last := list[..|list| - 1], list[|list| - 1];
      assert list == init + [last];
      OfKey(init, key, k) + if key(last) == k then [last] else []
  }

  /** A key's bucket is `list.filter(s => key(s) === k)`. */
  lemma {:induction false} OfKeyIsFilter<K(!new)>(list: seq<Subject>, key: Subject -> K, k: K, p: Subject -> bool)
    requires forall s :: p(s) == (key(s) == k)
    ensures OfKey(list, key, k) == Filter(list, p)
  {
    if list != [] {
      var init, last := list[..|list| - 1], list[|list| - 1];
      assert list == init + [last];
      OfKeyIsFilter(init, key, k, p);
      FilterConcat(init, [last], p);
      assert Filter([last], p) == if p(last) then [last] else [] by {
        assert [last][1..] == [];
      }
    }
  }

  /** The distinct keys of `list`, in the order of their first appearance. */
  function Keys<K(==,!new)>(list: seq<Subject>, key: Subject -> K): (r: seq<K>)
    ensures NoDup(r)
  {
    if list == [] then []
    else
      var ks := Keys(list[..|list| - 1], key);
      var k := key(list[|list| - 1]);
      if k in ks then ks else ks + [k]
  }

  /** The keys are exactly the keys some subject of the list carries. */
  lemma {:induction false} KeysMembership<K(!new)>(list: seq<Subject>, key: Subject -> K)
    ensures forall k :: k in Keys(list, key) <==> exists s :: s in list && key(s) == k
  {
    if list != [] {
      var init, last := list[..|list| - 1], list[|list| - 1];
      assert list == init + [last];
      KeysMembership(init, key);
      forall k | exists s :: s in list && key(s) == k
        ensures k in Keys(list, key)
      {
        var s :| s in list && key(s) == k;
        if s != last {
          assert s in init;
        }
      }
    }
  }

  function SemestersOf(buckets: seq<SemesterBucket>): seq<int> {
    seq(|buckets|, i requires 0 <= i < |buckets| => buckets[i].semester)
  }

  /** `buckets` is the semester view of `list`: semesters strictly ascending, each bucket the
      non-empty list of that semester's subjects in list order, and every subject's semester
      present. */
  predicate IsSemesterBuckets(buckets: seq<SemesterBucket>, list: seq<Subject>) {
    && StrictlyIncreasing(SemestersOf(buckets))
    && (forall i :: 0 <= i < |buckets| ==> buckets[i].subjects == OfKey(list, SubjectSemester, buckets[i].semester))
    && (forall i :: 0 <= i < |buckets| ==> buckets[i].subjects != [])
    && (forall s :: s in list ==> s.semester in SemestersOf(buckets))
  }

  function Concat(parts: seq<seq<Subject>>): seq<Subject> {
    if parts == [] then [] else Concat(parts[..|parts| - 1]) + parts[|parts| - 1]
  }

  function SemesterParts(buckets: seq<SemesterBucket>): seq<seq<Subject>> {
    seq(|buckets|, i requires 0 <= i < |buckets| => buckets[i].subjects)
  }

  /** Every subject of the view, bucket after bucket. */
  function FlattenSemesters(buckets: seq<SemesterBucket>): seq<Subject> {
    Concat(SemesterParts(buckets))
  }

  function DegreeIdsOf(result: seq<DegreeBucket>): seq<string> {
    seq(|result|, i requires 0 <= i < |result| => result[i].degreeId)
  }

  function FlattenDegrees(result: seq<DegreeBucket>): seq<Subject> {
    Concat(seq(|result|, i requires 0 <= i < |result| => FlattenSemesters(result[i].semesters)))
  }

  // ---------------------------------------------------------------- the bucketing loops

  /** The `for ... of` / `forEach` loop both editors run: a dictionary from key to bucket, plus the
      order in which keys were first met. */
  method GroupByKey<K(==,!new)>(list: seq<Subject>, key: Subject -> K) returns (keys: seq<K>, buckets: map<K, seq<Subject>>)
    ensures keys == Keys(list, key)
    ensures forall k :: k in buckets <==> k in keys
    ensures forall k :: k in buckets ==> buckets[k] == OfKey(list, key, k)
  {
    keys, buckets := [], map[];
    for i := 0 to |list|
      invariant GroupedSoFar(keys, buckets, list[..i], key)
    {
      var s := list[i];
      assert list[..i + 1] == list[..i] + [s];
      if key(s) !in buckets {
        GroupNewKey(keys, buckets, list[..i], s, key);
        keys, buckets := keys + [key(s)], buckets[key(s) := []];
      } else {
        GroupKnownKey(keys, buckets, list[..i], s, key);
      }
      buckets := buckets[key(s) := buckets[key(s)] + [s]];
    }
    assert list[..|list|] == list;
  }

  ghost predicate GroupedSoFar<K(!new)>(keys: seq<K>, buckets: map<K, seq<Subject>>, prefix: seq<Subject>, key: Subject -> K) {
    && keys == Keys(prefix, key)
    && (forall k :: k in buckets <==> k in keys)
    && (forall k :: k in buckets ==> buckets[k] == OfKey(prefix, key, k))
  }

  /** A subject whose key already has a bucket is pushed onto it. */
  lemma GroupKnownKey<K(!new)>(keys: seq<K>, buckets: map<K, seq<Subject>>, prefix: seq<Subject>, s: Subject,
                               key: Subject -> K)
    requires GroupedSoFar(keys, buckets, prefix, key) && key(s) in buckets
    ensures GroupedSoFar(keys, buckets[key(s) := buckets[key(s)] + [s]], prefix + [s], key)
  {
    var grown := buckets[key(s) := buckets[key(s)] + [s]];
    SnocKeys(prefix, s, key);
    forall k | k in grown
      ensures grown[k] == OfKey(prefix + [s], key, k)
    {
      SnocOfKey(prefix, s, key, k);
    }
  }

  /** A subject with a key not met yet gets a new, empty bucket and is pushed onto it. */
  lemma GroupNewKey<K(!new)>(keys: seq<K>, buckets: map<K, seq<Subject>>, prefix: seq<Subject>, s: Subject,
                             key: Subject -> K)
    requires GroupedSoFar(keys, buckets, prefix, key) && key(s) !in buckets
    ensures var withBucket := buckets[key(s) := []];
            GroupedSoFar(keys + [key(s)], withBucket[key(s) := withBucket[key(s)] + [s]], prefix + [s], key)
  {
    var withBucket := buckets[key(s) := []];
    var grown := withBucket[key(s) := withBucket[key(s)] + [s]];
    SnocKeys(prefix, s, key);
    NoBucketYet(prefix, key, key(s));
    forall k | k in grown
      ensures grown[k] == OfKey(prefix + [s], key, k)
    {
      SnocOfKey(prefix, s, key, k);
    }
  }

  /** How one more subject extends the keys. */
  lemma SnocKeys<K(!new)>(prefix: seq<Subject>, s: Subject, key: Subject -> K)
    ensures Keys(prefix + [s], key) == if key(s) in Keys(prefix, key) then Keys(prefix, key) else Keys(prefix, key) + [key(s)]
  {
    assert (prefix + [s])[..|prefix|] == prefix;
  }

  /** How one more subject extends a bucket. */
  lemma SnocOfKey<K(!new)>(prefix: seq<Subject>, s: Subject, key: Subject -> K, k: K)
    ensures OfKey(prefix + [s], key, k) == OfKey(prefix, key, k) + if key(s) == k then [s] else []
  {
    assert (prefix + [s])[..|prefix|] == prefix;
  }

  /** A key not met yet has an empty bucket. */
  lemma NoBucketYet<K(!new)>(prefix: seq<Subject>, key: Subject -> K, k: K)
    requires k !in Keys(prefix, key)
    ensures OfKey(prefix, key, k) == []
  {
    KeysMembership(prefix, key);
    var none := OfKey(prefix, key, k);
    assert forall i :: 0 <= i < |none| ==> none[i] in none;
  }

  lemma {:induction false} NoSubjectNoBucket<K(!new)>(list: seq<Subject>, key: Subject -> K, k: K)
    requires forall s :: s in list ==> key(s) != k
    ensures OfKey(list, key, k) == []
  {
    if list != [] {
      NoSubjectNoBucket(list[..|list| - 1], key, k);
    }
  }

  /** `Object.entries(bySemester).sort(by number).map(...)`: the semester buckets of `list`,
      semesters ascending. */
  method BucketBySemester(list: seq<Subject>) returns (buckets: seq<SemesterBucket>)
    ensures IsSemesterBuckets(buckets, list)
  {
    var keys, bySemester := GroupByKey(list, SubjectSemester);
    var sorted := SortDistinct(keys);
    buckets := BucketsInOrder(sorted, bySemester, list);
    BucketRunComplete(buckets, sorted, list);
  }

  /** `.map(([semester, subjects]) => ...)` over the sorted semesters: their buckets, in order. */
  method BucketsInOrder(sorted: seq<int>, bySemester: map<int, seq<Subject>>, list: seq<Subject>)
    returns (buckets: seq<SemesterBucket>)
    requires forall k :: k in sorted ==> k in Keys(list, SubjectSemester) && k in bySemester
    requires forall k :: k in bySemester ==> bySemester[k] == OfKey(list, SubjectSemester, k)
    ensures BucketRun(buckets, sorted, list)
  {
    buckets := [];
    for j := 0 to |sorted|
      invariant BucketRun(buckets, sorted[..j], list)
    {
      var k := sorted[j];
      KeyHasSubject(list, SubjectSemester, k);
      BucketRunStep(buckets, sorted[..j], SemesterBucket(k, bySemester[k]), list);
      assert sorted[..j + 1] == sorted[..j] + [k];
      buckets := buckets + [SemesterBucket(k, bySemester[k])];
    }
    assert sorted[..|sorted|] == sorted;
  }

  /** Buckets for every semester of the list, in strictly ascending order, are its semester view. */
  lemma BucketRunComplete(buckets: seq<SemesterBucket>, sorted: seq<int>, list: seq<Subject>)
    requires BucketRun(buckets, sorted, list) && StrictlyIncreasing(sorted)
    requires forall x :: x in sorted <==> x in Keys(list, SubjectSemester)
    ensures IsSemesterBuckets(buckets, list)
  {
    KeysMembership(list, SubjectSemester);
    forall s | s in list ensures s.semester in SemestersOf(buckets) {
      assert SubjectSemester(s) in Keys(list, SubjectSemester);
    }
  }

  /** `buckets` are the non-empty buckets of the semesters `ks`, in that order. */
  predicate BucketRun(buckets: seq<SemesterBucket>, ks: seq<int>, list: seq<Subject>) {
    && SemestersOf(buckets) == ks
    && (forall i :: 0 <= i < |buckets| ==> buckets[i].subjects == OfKey(list, SubjectSemester, buckets[i].semester))
    && (forall i :: 0 <= i < |buckets| ==> buckets[i].subjects != [])
  }

  lemma BucketRunStep(buckets: seq<SemesterBucket>, ks: seq<int>, b: SemesterBucket, list: seq<Subject>)
    requires BucketRun(buckets, ks, list)
    requires b.subjects == OfKey(list, SubjectSemester, b.semester) && b.subjects != []
    ensures BucketRun(buckets + [b], ks + [b.semester], list)
  {
    assert SemestersOf(buckets + [b]) == SemestersOf(buckets) + [b.semester];
  }

  /** The bucket of a key some subject carries is not empty. */
  lemma KeyHasSubject<K(!new)>(list: seq<Subject>, key: Subject -> K, k: K)
    requires k in Keys(list, key)
    ensures OfKey(list, key, k) != []
  {
    KeysMembership(list, key);
    var s :| s in list && key(s) == k;
    assert s in OfKey(list, key, k);
  }

  /** `subjectsForDegree`: the semester buckets of the subjects of one degree. */
  method SubjectsForDegree(allSubjects: seq<Subject>, degreeId: string) returns (buckets: seq<SemesterBucket>)
    ensures IsSemesterBuckets(buckets, OfKey(allSubjects, SubjectDegreeId, degreeId))
    ensures buckets == [] <==> forall s :: s in allSubjects ==> s.degreeId != degreeId
  {
    var ofDegree := OfKey(allSubjects, SubjectDegreeId, degreeId);
    buckets := BucketBySemester(ofDegree);
    assert |SemestersOf(buckets)| == |buckets|;
    forall s | s in allSubjects && s.degreeId == degreeId ensures buckets != [] {
      assert SubjectDegreeId(s) == degreeId;
      assert s in ofDegree;
      assert s.semester in SemestersOf(buckets);
    }
    SemesterBucketsPartition(buckets, ofDegree);
    ConcatOfNonEmpty(SemesterParts(buckets));
    if forall s :: s in allSubjects ==> s.degreeId != degreeId {
      assert forall s :: s in allSubjects ==> SubjectDegreeId(s) != degreeId;
      NoSubjectNoBucket(allSubjects, SubjectDegreeId, degreeId);
      assert |FlattenSemesters(buckets)| == |multiset(ofDegree)| == 0;
    }
  }

  /** Concatenating non-empty parts gives at least one element per part. */
  lemma {:induction false} ConcatOfNonEmpty(parts: seq<seq<Subject>>)
    requires forall i :: 0 <= i < |parts| ==> parts[i] != []
    ensures |Concat(parts)| >= |parts|
  {
    if parts != [] {
      ConcatOfNonEmpty(parts[..|parts| - 1]);
    }
  }

  /** `result` is the degree view of `allSubjects` for the degree ids `ids`, in that order: each
      entry carries the degree found under its id and the semester view of that degree's subjects. */
  predicate IsDegreeView(result: seq<DegreeBucket>, ids: seq<string>, allSubjects: seq<Subject>, degrees: seq<Degree>) {
    && DegreeIdsOf(result) == ids
    && (forall i :: 0 <= i < |result| ==> result[i].degree == FindById(degrees, result[i].degreeId, DegreeId))
    && (forall i :: 0 <= i < |result| ==>
          IsSemesterBuckets(result[i].semesters, OfKey(allSubjects, SubjectDegreeId, result[i].degreeId)))
  }

  /** `groupedSubjects`: one entry per degree id the subjects carry, in order of first appearance,
      each with the degree of that id and the semester buckets of its subjects. */
  method GroupedSubjects(allSubjects: seq<Subject>, degrees: seq<Degree>) returns (result: seq<DegreeBucket>)
    ensures IsDegreeView(result, Keys(allSubjects, SubjectDegreeId), allSubjects, degrees)
  {
    var keys, byDegree := GroupByKey(allSubjects, SubjectDegreeId);
    result := DegreeEntries(keys, byDegree, allSubjects, degrees);
  }

  /** The `map` over the keys that turns each degree's bucket into its entry. */
  method DegreeEntries(keys: seq<string>, byDegree: map<string, seq<Subject>>, allSubjects: seq<Subject>,
                       degrees: seq<Degree>) returns (result: seq<DegreeBucket>)
    requires forall k :: k in keys ==> k in byDegree
    requires forall k :: k in byDegree ==> byDegree[k] == OfKey(allSubjects, SubjectDegreeId, k)
    ensures IsDegreeView(result, keys, allSubjects, degrees)
  {
    result := [];
    for j := 0 to |keys|
      invariant IsDegreeView(result, keys[..j], allSubjects, degrees)
    {
      var k := keys[j];
      var semesters := BucketBySemester(byDegree[k]);
      var entry := DegreeBucket(k, FindById(degrees, k, DegreeId), semesters);
      DegreeViewStep(result, keys[..j], entry, allSubjects, degrees);
      assert keys[..j + 1] == keys[..j] + [k];
      result := result + [entry];
    }
    assert keys[..|keys|] == keys;
  }

  lemma DegreeViewStep(result: seq<DegreeBucket>, ids: seq<string>, entry: DegreeBucket,
                       allSubjects: seq<Subject>, degrees: seq<Degree>)
    requires IsDegreeView(result, ids, allSubjects, degrees)
    requires entry.degree == FindById(degrees, entry.degreeId, DegreeId)
    requires IsSemesterBuckets(entry.semesters, OfKey(allSubjects, SubjectDegreeId, entry.degreeId))
    ensures IsDegreeView(result + [entry], ids + [entry.degreeId], allSubjects, degrees)
  {
    assert DegreeIdsOf(result + [entry]) == DegreeIdsOf(result) + [entry.degreeId];
  }

  // ---------------------------------------------------------------- properties

  /** A subject occurs in the bucket of its own key as often as in the list, and in no other. */
  lemma {:induction false} OfKeyCount<K(!new)>(list: seq<Subject>, key: Subject -> K, k: K, x: Subject)
    ensures multiset(OfKey(list, key, k))[x] == if key(x) == k then multiset(list)[x] else 0
  {
    if list != [] {
      var init, last := list[..|list| - 1], list[|list| - 1];
      assert list == init + [last];
      OfKeyCount(init, key, k, x);
    }
  }

  /** Buckets of distinct keys, concatenated, hold each subject whose key is among them exactly as
      often as the list does, and no other subject. */
  lemma {:induction false} PartsPartition<K(!new)>(list: seq<Subject>, key: Subject -> K, ks: seq<K>, parts: seq<seq<Subject>>, x: Subject)
    requires |parts| == |ks| && NoDup(ks)
    requires forall i :: 0 <= i < |ks| ==> multiset(parts[i]) == multiset(OfKey(list, key, ks[i]))
    ensures multiset(Concat(parts))[x] == if key(x) in ks then multiset(list)[x] else 0
  {
    if parts != [] {
      var n := |parts| - 1;
      assert ks == ks[..n] + [ks[n]];
      PartsPartition(list, key, ks[..n], parts[..n], x);
      OfKeyCount(list, key, ks[n], x);
    }
  }

  /** The semester view is a partition: its buckets hold every subject of the list exactly once. */
  lemma SemesterBucketsPartition(buckets: seq<SemesterBucket>, list: seq<Subject>)
    requires IsSemesterBuckets(buckets, list)
    ensures multiset(FlattenSemesters(buckets)) == multiset(list)
  {
    var ks := SemestersOf(buckets);
    var parts := SemesterParts(buckets);
    assert NoDup(ks);
    forall x ensures multiset(FlattenSemesters(buckets))[x] == multiset(list)[x] {
      PartsPartition(list, SubjectSemester, ks, parts, x);
      if x in list {
        assert SubjectSemester(x) in ks;
      }
    }
  }

  /** The degree view is a partition too: across all degrees and semesters, every subject appears
      exactly once. */
  lemma GroupedSubjectsPartition(result: seq<DegreeBucket>, allSubjects: seq<Subject>, degrees: seq<Degree>)
    requires IsDegreeView(result, Keys(allSubjects, SubjectDegreeId), allSubjects, degrees)
    ensures multiset(FlattenDegrees(result)) == multiset(allSubjects)
  {
    var ks := DegreeIdsOf(result);
    var parts := seq(|result|, i requires 0 <= i < |result| => FlattenSemesters(result[i].semesters));
    forall i | 0 <= i < |ks| ensures multiset(parts[i]) == multiset(OfKey(allSubjects, SubjectDegreeId, ks[i])) {
      SemesterBucketsPartition(result[i].semesters, OfKey(allSubjects, SubjectDegreeId, ks[i]));
    }
    KeysMembership(allSubjects, SubjectDegreeId);
    forall x ensures multiset(FlattenDegrees(result))[x] == multiset(allSubjects)[x] {
      PartsPartition(allSubjects, SubjectDegreeId, ks, parts, x);
      if x in allSubjects {
        assert SubjectDegreeId(x) in ks;
      }
    }
  }

  /** Two strictly ascending sequences with the same elements are equal. */
  lemma {:induction false} StrictlyIncreasingUnique(a: seq<int>, b: seq<int>)
    requires StrictlyIncreasing(a) && StrictlyIncreasing(b)
    requires forall x :: x in a <==> x in b
    ensures a == b
  {
    assert |b| > 0 ==> b[0] in b;
    if a != [] {
      assert a[0] in a;
      assert a[0] in b && b != [];
      assert b[0] in a;
      assert a[0] == b[0];
      forall x ensures x in a[1..] <==> x in b[1..] {
        TailElements(a, x);
        TailElements(b, x);
      }
      StrictlyIncreasingUnique(a[1..], b[1..]);
      assert a == [a[0]] + a[1..];
      assert b == [b[0]] + b[1..];
    }
  }

  lemma TailElements(a: seq<int>, x: int)
    requires StrictlyIncreasing(a) && a != []
    ensures x in a[1..] <==> x in a && x != a[0]
  {
    assert a == [a[0]] + a[1..];
  }

  /** The semester view of a list is unique: what `BucketBySemester` promises fixes its result. */
  lemma SemesterBucketsUnique(b1: seq<SemesterBucket>, b2: seq<SemesterBucket>, list: seq<Subject>)
    requires IsSemesterBuckets(b1, list) && IsSemesterBuckets(b2, list)
    ensures b1 == b2
  {
    forall x ensures x in SemestersOf(b1) <==> x in SemestersOf(b2) {
      SemesterOfBucketOccurs(b1, list, x);
      SemesterOfBucketOccurs(b2, list, x);
    }
    StrictlyIncreasingUnique(SemestersOf(b1), SemestersOf(b2));
    assert |b1| == |SemestersOf(b1)|;
    assert |b2| == |SemestersOf(b2)|;
    forall i | 0 <= i < |b1| ensures b1[i] == b2[i] {
      assert b1[i].semester == SemestersOf(b1)[i] == SemestersOf(b2)[i] == b2[i].semester;
      assert b1[i].subjects == OfKey(list, SubjectSemester, b1[i].semester);
      assert b2[i].subjects == OfKey(list, SubjectSemester, b2[i].semester);
    }
  }

  /** A bucket's semester is the semester of some subject of the list. */
  lemma SemesterOfBucketOccurs(buckets: seq<SemesterBucket>, list: seq<Subject>, x: int)
    requires IsSemesterBuckets(buckets, list)
    ensures x in SemestersOf(buckets) <==> exists s :: s in list && s.semester == x
  {
    if x in SemestersOf(buckets) {
      var i :| 0 <= i < |buckets| && SemestersOf(buckets)[i] == x;
      var s := buckets[i].subjects[0];
      assert s in buckets[i].subjects;
    }
  }
}
