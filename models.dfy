/** The analyzer's domain records (analyzer-direct-kt `lib/Models.kt`) and the merge of two
    reports of the same repository. */
module Models {
  import opened Strings

  /** A GitHub repository; `fullName` is `<organization>/<name>`. */
  datatype Repository = Repository(id: int, fullName: string, stars: int, issues: int) {
    /** The owner organization: the text before the first `/`, or the whole name when there is no `/`. */
    function Organization(): string {
      SubstringBefore(fullName, '/')
    }

    /** The short repository name: the text after the first `/`, or the whole name when there is no `/`. */
    function Name(): string {
      SubstringAfter(fullName, '/')
    }
  }

  /** `user` made `contributions` commits (a Kotlin `Long`). */
  datatype Contribution = Contribution(user: string, contributions: int)

  datatype Release = Release(tagName: string, date: string)

  datatype RepositoryReport = RepositoryReport(
    name: string,
    issues: int,
    stars: int,
    contributions: seq<Contribution>,
    lastRelease: Wrappers.Option<Release>)

  /** `organization` and `name` split `fullName` at its first `/`; without a `/` both are `fullName`. */
  lemma FullNameSplit(r: Repository)
    ensures '/' in r.fullName ==> r.Organization() + "/" + r.Name() == r.fullName && '/' !in r.Organization()
    ensures '/' !in r.fullName ==> r.Organization() == r.fullName && r.Name() == r.fullName
  {
    SubstringsAroundDelimiter(r.fullName, '/');
  }

  /** The repository `dse/test-1` of the analyzer's tests. */
  lemma FullNameExample()
    ensures Repository(0, "dse/test-1", 100, 10).Organization() == "dse"
    ensures Repository(0, "dse/test-1", 100, 10).Name() == "test-1"
  {
    var s := "dse/test-1";
    assert s[..3] == "dse" && s[4..] == "test-1";
    IndexOfExample(s, 3);
  }

  /** Only the first `/` splits. */
  lemma FullNameFirstSlash()
    ensures Repository(2, "a/b/c", 0, 0).Organization() == "a"
    ensures Repository(2, "a/b/c", 0, 0).Name() == "b/c"
  {
    var t := "a/b/c";
    assert t[..1] == "a" && t[2..] == "b/c";
    IndexOfExample(t, 1);
  }

  /** Helper for `FullNameExample` and `FullNameFirstSlash`: the first `/` of `s` is at `i`. */
  lemma IndexOfExample(s: string, i: nat)
    requires i < |s| && s[i] == '/' && '/' !in s[..i]
    ensures IndexOf(s, '/') == Wrappers.Some(i)
  {
  }

  // ---------------------------------------------------------------------------------------------
  // Kotlin's `distinct()`: the first occurrence of each element, in order.

  predicate NoDuplicates<T(==)>(s: seq<T>) {
    forall i, j :: 0 <= i < j < |s| ==> s[i] != s[j]
  }

  function Distinct<T(==)>(s: seq<T>): seq<T> {
    if |s| == 0 then []
    else
      var d := Distinct(s[..|s| - 1]);
      if s[|s| - 1] in d then d else d + [s[|s| - 1]]
  }

  lemma {:induction false} DistinctProperties<T>(s: seq<T>)
    ensures NoDuplicates(Distinct(s))
    ensures forall x :: x in Distinct(s) <==> x in s
  {
    if |s| > 0 {
      DistinctProperties(s[..|s| - 1]);
      assert forall x :: x in s <==> x in s[..|s| - 1] || x == s[|s| - 1] by {
        assert s == s[..|s| - 1] + [s[|s| - 1]];
      }
    }
  }

  /** `distinct` of a list without duplicates is the list itself. */
  lemma {:induction false} DistinctOfDistinct<T>(s: seq<T>)
    requires NoDuplicates(s)
    ensures Distinct(s) == s
  {
    if |s| > 0 {
      DistinctOfDistinct(s[..|s| - 1]);
      assert s == s[..|s| - 1] + [s[|s| - 1]];
    }
  }

  /** Appending to the input only appends to the output: `distinct(a)` is a prefix of `distinct(a + b)`. */
  lemma {:induction false} DistinctExtends<T>(a: seq<T>, b: seq<T>)
    ensures |Distinct(a)| <= |Distinct(a + b)| && Distinct(a + b)[..|Distinct(a)|] == Distinct(a)
  {
    if |b| > 0 {
      var b' := b[..|b| - 1];
      assert (a + b)[..|a + b| - 1] == a + b';
      DistinctExtends(a, b');
    } else {
      assert a + b == a;
    }
  }

  /** Elements of `b` that are already in `a` add nothing. */
  lemma {:induction false} DistinctAbsorbs<T>(a: seq<T>, b: seq<T>)
    requires forall x :: x in b ==> x in a
    ensures Distinct(a + b) == Distinct(a)
  {
    if |b| > 0 {
      var b' := b[..|b| - 1];
      assert (a + b)[..|a + b| - 1] == a + b';
      DistinctAbsorbs(a, b');
      DistinctProperties(a);
    } else {
      assert a + b == a;
    }
  }

  // ---------------------------------------------------------------------------------------------
  // Merging reports (`Set<RepositoryReport>.addOrUpdate`).

  /** `existing.copy(contributions = (existing.contributions + other.contributions).distinct())`. */
  function Merge(existing: RepositoryReport, other: RepositoryReport): RepositoryReport {
    existing.(contributions := Distinct(existing.contributions + other.contributions))
  }

  /** The merged report keeps everything but the contributions of `existing`; its contributions are the
      union without duplicates, and those of `existing`, when they have no duplicates, come first and
      in their order. */
  lemma MergeProperties(existing: RepositoryReport, other: RepositoryReport)
    ensures var m := Merge(existing, other);
      && m.name == existing.name && m.issues == existing.issues && m.stars == existing.stars
      && m.lastRelease == existing.lastRelease
      && NoDuplicates(m.contributions)
      && (forall c :: c in m.contributions <==> c in existing.contributions || c in other.contributions)
      && (NoDuplicates(existing.contributions) ==>
            |existing.contributions| <= |m.contributions| &&
            m.contributions[..|existing.contributions|] == existing.contributions)
  {
    var a, b := existing.contributions, other.contributions;
    DistinctProperties(a + b);
    DistinctExtends(a, b);
    if NoDuplicates(a) {
      DistinctOfDistinct(a);
    }
  }

  /** Merging a report whose contributions are all already present changes nothing. */
  lemma MergeIdempotent(existing: RepositoryReport, other: RepositoryReport)
    requires NoDuplicates(existing.contributions)
    requires forall c :: c in other.contributions ==> c in existing.contributions
    ensures Merge(existing, other) == existing
  {
    DistinctAbsorbs(existing.contributions, other.contributions);
    DistinctOfDistinct(existing.contributions);
  }

  /** At most one report per repository name. */
  predicate UniqueNames(reports: set<RepositoryReport>) {
    forall r, s :: r in reports && s in reports && r.name == s.name ==> r == s
  }

  /** Adds `other` to `reports`, or, when a report with the same name is present, replaces that report
      with its merge with `other`. The source copies the set into a mutable set and updates that copy. */
  method AddOrUpdate(reports: set<RepositoryReport>, other: RepositoryReport) returns (updated: set<RepositoryReport>)
    ensures (forall r :: r in reports ==> r.name != other.name) ==> updated == reports + {other}
    ensures (exists r :: r in reports && r.name == other.name) ==>
      exists e :: e in reports && e.name == other.name && updated == reports - {e} + {Merge(e, other)}
    ensures forall r :: r in reports && r.name != other.name ==> r in updated
    ensures forall r :: r in updated && r.name != other.name ==> r in reports
    ensures exists r :: r in updated && r.name == other.name
    ensures UniqueNames(reports) ==> UniqueNames(updated)
    ensures |updated| <= |reports| + 1
  {
    var updatedSet := reports;
    if r :| r in updatedSet && r.name == other.name {
      var existingReport := r;
      var updatedReport := Merge(existingReport, other);
      updatedSet := updatedSet - {existingReport};
      updatedSet := updatedSet + {updatedReport};
      assert |updatedSet| <= |reports|;
    } else {
      updatedSet := updatedSet + {other};
    }
    updated := updatedSet;
  }
}
