/** The canonical order of the resume's sections and the normaliser that turns any
    caller-supplied order (absent, partial, with duplicates or with unknown values)
    into a complete one. Models src/constants/sectionOrder.ts. */
module SectionOrder {

  datatype Option<T> = None | Some(value: T)

  /** The seven sections of a resume. */
  datatype SectionKey = PersonalInfo | Education | Projects | WorkExperience | Skills | Honors | Summary

  /** The string each key is at run time. */
  function Name(k: SectionKey): (r: string)
    ensures r in SectionNames
  {
    match k
    case PersonalInfo => "personalInfo"
    case Education => "education"
    case Projects => "projects"
    case WorkExperience => "workExperience"
    case Skills => "skills"
    case Honors => "honors"
    case Summary => "summary"
  }

  /** The run-time strings of distinct keys differ, and they are exactly SectionNames,
      so each string stands for at most one key. */
  lemma NameIsBijection()
    ensures forall k, k' :: Name(k) == Name(k') ==> k == k'
    ensures forall s :: s in SectionNames <==> exists k :: Name(k) == s
  {
    assert Name(PersonalInfo) == "personalInfo" && Name(Education) == "education";
    assert Name(Projects) == "projects" && Name(WorkExperience) == "workExperience";
    assert Name(Skills) == "skills" && Name(Honors) == "honors" && Name(Summary) == "summary";
  }

  const SectionNames: set<string> :=
    {"personalInfo", "education", "projects", "workExperience", "skills", "honors", "summary"}

  /** Any run-time value that is not one of the seven key strings. */
  type ForeignText = s: string | s !in SectionNames witness ""

  /** One element of the array a caller hands to the normaliser: a section key, or
      something else. Each run-time value has exactly one representation. */
  datatype Entry = Key(key: SectionKey) | Foreign(text: ForeignText)

  /** DEFAULT_SECTION_ORDER. */
  const DefaultSectionOrder: seq<SectionKey> :=
    [PersonalInfo, Education, Projects, WorkExperience, Skills, Honors, Summary]

  /** The position of a key in the canonical order, defined independently of the constant. */
  function Rank(k: SectionKey): nat {
    match k
    case PersonalInfo => 0
    case Education => 1
    case Projects => 2
    case WorkExperience => 3
    case Skills => 4
    case Honors => 5
    case Summary => 6
  }

  predicate Distinct<T(==)>(s: seq<T>) {
    forall i, j :: 0 <= i < j < |s| ==> s[i] != s[j]
  }

  /** Strictly increasing in canonical rank (hence also free of duplicates). */
  predicate InCanonicalOrder(s: seq<SectionKey>) {
    forall i, j :: 0 <= i < j < |s| ==> Rank(s[i]) < Rank(s[j])
  }

  /** Every section key exactly once. */
  predicate IsCompleteOrder(s: seq<SectionKey>) {
    Distinct(s) && forall k: SectionKey :: k in s
  }

  /** The filter `DEFAULT_SECTION_ORDER.includes(key)`. */
  predicate IsRecognised(e: Entry) {
    e.Key? && e.key in DefaultSectionOrder
  }

  /** The array the normaliser walks: anything but an array counts as empty. */
  function Source(order: Option<seq<Entry>>): seq<Entry> {
    match order
    case None => []
    case Some(s) => s
  }

  /** Keys read as an input array. */
  function Lift(ks: seq<SectionKey>): seq<Entry> {
    seq(|ks|, i requires 0 <= i < |ks| => Key(ks[i]))
  }

  /** The index of the first occurrence of `x` in `s`. */
  function IndexOf<T(==)>(s: seq<T>, x: T): (i: nat)
    requires x in s
    ensures i < |s| && s[i] == x && x !in s[..i]
  {
    if s[0] == x then 0 else 1 + IndexOf(s[1..], x)
  }

  /** What the first loop keeps: each recognised key at its first occurrence. */
  function FirstOccurrences(s: seq<Entry>): seq<SectionKey> {
    if s == [] then []
    else
      var kept := FirstOccurrences(s[..|s| - 1]);
      var e := s[|s| - 1];
      if IsRecognised(e) && e.key !in kept then kept + [e.key] else kept
  }

  /** What the second loop appends: the keys of `canon` not in `present`, in the order of `canon`. */
  function Absent(canon: seq<SectionKey>, present: seq<SectionKey>): seq<SectionKey> {
    if canon == [] then []
    else
      var before := Absent(canon[..|canon| - 1], present);
      var k := canon[|canon| - 1];
      if k in present then before else before + [k]
  }

  /** The result of normalizeSectionOrder. */
  function Normalized(order: Option<seq<Entry>>): seq<SectionKey> {
    var kept := FirstOccurrences(Source(order));
    kept + Absent(DefaultSectionOrder, kept)
  }

  /** normalizeSectionOrder: two loops that push onto a fresh array. The input is a
      value, so the caller's array cannot be changed. */
  method NormalizeSectionOrder(order: Option<seq<Entry>>) returns (result: seq<SectionKey>)
    ensures result == Normalized(order)
    ensures IsCompleteOrder(result) && |result| == |DefaultSectionOrder|
  {
    result := [];
    var source := if order.Some? then order.value else [];
    for i := 0 to |source|
      invariant result == FirstOccurrences(source[..i])
    {
      var key := source[i];
      FirstOccurrencesStep(source, i);
      if IsRecognised(key) && key.key !in result {
        result := result + [key.key];
      }
    }
    assert source[..|source|] == source;
    ghost var kept := result;
    for i := 0 to |DefaultSectionOrder|
      invariant result == kept + Absent(DefaultSectionOrder[..i], kept)
    {
      var key := DefaultSectionOrder[i];
      DefaultAbsentStep(kept, i);
      if key !in result {
        result := result + [key];
      }
    }
    assert DefaultSectionOrder[..|DefaultSectionOrder|] == DefaultSectionOrder;
    NormalizedIsComplete(order);
  }

  // ---------------------------------------------------------------------------
  // The canonical order

  /** DEFAULT_SECTION_ORDER lists every key, each at its rank. */
  lemma DefaultIsCanonical()
    ensures |DefaultSectionOrder| == 7 && InCanonicalOrder(DefaultSectionOrder)
    ensures forall i :: 0 <= i < 7 ==> Rank(DefaultSectionOrder[i]) == i
    ensures forall k: SectionKey :: Rank(k) < 7 && DefaultSectionOrder[Rank(k)] == k
    ensures Distinct(DefaultSectionOrder) && IsCompleteOrder(DefaultSectionOrder)
  {
    DefaultRanks();
    DefaultIsDistinct();
    forall k: SectionKey ensures Rank(k) < 7 && DefaultSectionOrder[Rank(k)] == k {
      match k
      case PersonalInfo =>
      case Education =>
      case Projects =>
      case WorkExperience =>
      case Skills =>
      case Honors =>
      case Summary =>
    }
    DefaultHasEveryKey();
  }

  lemma DefaultHasEveryKey()
    ensures forall k: SectionKey :: k in DefaultSectionOrder
  {
    forall k: SectionKey ensures k in DefaultSectionOrder {
      match k
      case PersonalInfo =>
      case Education =>
      case Projects =>
      case WorkExperience =>
      case Skills =>
      case Honors =>
      case Summary =>
    }
  }

  lemma DefaultRanks()
    ensures |DefaultSectionOrder| == 7
    ensures forall i :: 0 <= i < 7 ==> Rank(DefaultSectionOrder[i]) == i
    ensures InCanonicalOrder(DefaultSectionOrder)
  {
  }

  lemma DefaultIsDistinct()
    ensures Distinct(DefaultSectionOrder)
  {
    DefaultRanks();
    CanonicalIsDistinct(DefaultSectionOrder);
  }

  lemma CanonicalIsDistinct(s: seq<SectionKey>)
    requires InCanonicalOrder(s)
    ensures Distinct(s)
  {
  }

  // ---------------------------------------------------------------------------
  // The first loop

  lemma IndexOfUnique<T>(s: seq<T>, x: T, i: nat)
    requires i < |s| && s[i] == x && x !in s[..i]
    ensures IndexOf(s, x) == i
  {
  }

  /** One turn of the first loop. */
  lemma FirstOccurrencesStep(s: seq<Entry>, i: nat)
    requires i < |s|
    ensures FirstOccurrences(s[..i + 1]) ==
      var kept := FirstOccurrences(s[..i]);
      if IsRecognised(s[i]) && s[i].key !in kept then kept + [s[i].key] else kept
  {
    assert s[..i + 1][..i] == s[..i];
  }

  /** The kept keys are free of duplicates and are exactly the keys the input mentions. */
  lemma {:induction false} FirstOccurrencesMembers(s: seq<Entry>)
    ensures Distinct(FirstOccurrences(s))
    ensures forall k :: k in FirstOccurrences(s) <==> Key(k) in s
  {
    DefaultHasEveryKey();
    if s != [] {
      var init := s[..|s| - 1];
      FirstOccurrencesMembers(init);
      assert s == init + [s[|s| - 1]];
      forall k ensures k in FirstOccurrences(s) <==> Key(k) in s {
        assert Key(k) in s <==> Key(k) in init || Key(k) == s[|s| - 1];
      }
    }
  }

  /** The kept keys follow the order of their first occurrences in the input. */
  lemma {:induction false} FirstOccurrencesOrder(s: seq<Entry>)
    ensures forall k :: k in FirstOccurrences(s) ==> Key(k) in s
    ensures forall i, j :: 0 <= i < j < |FirstOccurrences(s)| ==>
      IndexOf(s, Key(FirstOccurrences(s)[i])) < IndexOf(s, Key(FirstOccurrences(s)[j]))
  {
    FirstOccurrencesMembers(s);
    if s != [] {
      var init := s[..|s| - 1];
      var n := |s| - 1;
      FirstOccurrencesOrder(init);
      FirstOccurrencesMembers(init);
      var kept := FirstOccurrences(init);
      var p := FirstOccurrences(s);
      forall k | k in kept ensures IndexOf(s, Key(k)) == IndexOf(init, Key(k)) {
        var i := IndexOf(init, Key(k));
        assert s[..i] == init[..i];
        IndexOfUnique(s, Key(k), i);
      }
      if p != kept {
        var k := s[n].key;
        assert p == kept + [k];
        assert Key(k) !in init;
        assert s[..n] == init;
        IndexOfUnique(s, Key(k), n);
        forall i, j | 0 <= i < j < |p|
          ensures IndexOf(s, Key(p[i])) < IndexOf(s, Key(p[j]))
        {
          assert p[i] == kept[i];
          if j < |kept| {
            assert p[j] == kept[j];
          }
        }
      }
    }
  }

  // ---------------------------------------------------------------------------
  // The second loop

  /** The appended keys are the canonical keys that are not present. */
  lemma {:induction false} AbsentMembers(canon: seq<SectionKey>, present: seq<SectionKey>)
    ensures forall k :: k in Absent(canon, present) <==> k in canon && k !in present
  {
    if canon != [] {
      var init := canon[..|canon| - 1];
      AbsentMembers(init, present);
      assert canon == init + [canon[|canon| - 1]];
    }
  }

  lemma AbsentSnoc(canon: seq<SectionKey>, k: SectionKey, present: seq<SectionKey>)
    ensures Absent(canon + [k], present) ==
      Absent(canon, present) + (if k in present then [] else [k])
  {
  }

  /** One turn of the second loop: the key at `i` is not yet among those appended. */
  lemma AbsentStep(canon: seq<SectionKey>, present: seq<SectionKey>, i: nat)
    requires Distinct(canon) && i < |canon|
    ensures canon[i] !in Absent(canon[..i], present)
    ensures Absent(canon[..i + 1], present) ==
      Absent(canon[..i], present) + (if canon[i] in present then [] else [canon[i]])
  {
    assert canon[..i + 1][..i] == canon[..i];
    AbsentMembers(canon[..i], present);
    forall j | 0 <= j < i ensures canon[..i][j] != canon[i] {
    }
  }

  /** One turn of the second loop over DEFAULT_SECTION_ORDER: the key at `i` is in the
      result so far exactly when the first loop kept it. */
  lemma DefaultAbsentStep(kept: seq<SectionKey>, i: nat)
    requires i < |DefaultSectionOrder|
    ensures var key := DefaultSectionOrder[i];
            var result := kept + Absent(DefaultSectionOrder[..i], kept);
            (key in result <==> key in kept) &&
            kept + Absent(DefaultSectionOrder[..i + 1], kept) ==
              if key in kept then result else result + [key]
  {
    DefaultIsDistinct();
    AbsentStep(DefaultSectionOrder, kept, i);
  }

  /** A duplicate-free `canon` appends no key twice. */
  lemma {:induction false} AbsentDistinct(canon: seq<SectionKey>, present: seq<SectionKey>)
    requires Distinct(canon)
    ensures Distinct(Absent(canon, present))
  {
    if canon != [] {
      var n := |canon| - 1;
      var init := canon[..n];
      assert Distinct(init);
      AbsentDistinct(init, present);
      AbsentMembers(init, present);
      var before := Absent(init, present);
      var m := Absent(canon, present);
      if m != before {
        forall i, j | 0 <= i < j < |m| ensures m[i] != m[j] {
          if j == |before| {
            assert m[i] in init;
            var i' :| 0 <= i' < n && init[i'] == m[i];
          }
        }
      }
    }
  }

  /** The appended keys keep the canonical order. */
  lemma {:induction false} AbsentInOrder(canon: seq<SectionKey>, present: seq<SectionKey>)
    requires InCanonicalOrder(canon)
    ensures InCanonicalOrder(Absent(canon, present))
  {
    if canon != [] {
      var n := |canon| - 1;
      var init := canon[..n];
      assert InCanonicalOrder(init);
      AbsentInOrder(init, present);
      AbsentMembers(init, present);
      var before := Absent(init, present);
      var m := Absent(canon, present);
      if m != before {
        forall i, j | 0 <= i < j < |m| ensures Rank(m[i]) < Rank(m[j]) {
          if j == |before| {
            assert m[i] in init;
            var i' :| 0 <= i' < n && init[i'] == m[i];
          }
        }
      }
    }
  }

  /** With nothing present, every canonical key is appended. */
  lemma {:induction false} AbsentFromNothing(canon: seq<SectionKey>)
    ensures Absent(canon, []) == canon
  {
    if canon != [] {
      AbsentFromNothing(canon[..|canon| - 1]);
      assert canon == canon[..|canon| - 1] + [canon[|canon| - 1]];
    }
  }

  /** With every canonical key present, nothing is appended. */
  lemma {:induction false} AbsentFromAll(canon: seq<SectionKey>, present: seq<SectionKey>)
    requires forall k :: k in canon ==> k in present
    ensures Absent(canon, present) == []
  {
    if canon != [] {
      AbsentFromAll(canon[..|canon| - 1], present);
      assert canon[|canon| - 1] in canon;
    }
  }

  // ---------------------------------------------------------------------------
  // Properties of the result

  /** The result holds every key exactly once, so it has seven elements. */
  lemma NormalizedIsComplete(order: Option<seq<Entry>>)
    ensures IsCompleteOrder(Normalized(order)) && |Normalized(order)| == |DefaultSectionOrder|
  {
    NormalizedHasEveryKeyOnce(order);
    CompleteOrderIsPermutation(Normalized(order));
  }

  lemma NormalizedHasEveryKeyOnce(order: Option<seq<Entry>>)
    ensures IsCompleteOrder(Normalized(order))
  {
    var kept := FirstOccurrences(Source(order));
    FirstOccurrencesMembers(Source(order));
    DefaultIsDistinct();
    DefaultHasEveryKey();
    CompletedIsComplete(kept, DefaultSectionOrder);
  }

  /** Distinct keys followed by the keys of a complete, distinct `canon` they lack hold
      every key exactly once. */
  lemma CompletedIsComplete(kept: seq<SectionKey>, canon: seq<SectionKey>)
    requires Distinct(kept) && Distinct(canon) && forall k: SectionKey :: k in canon
    ensures IsCompleteOrder(kept + Absent(canon, kept))
  {
    var m := Absent(canon, kept);
    AbsentMembers(canon, kept);
    AbsentDistinct(canon, kept);
    var r := kept + m;
    forall i, j | 0 <= i < j < |r| ensures r[i] != r[j] {
      if j < |kept| {
        assert r[i] == kept[i] && r[j] == kept[j];
      } else if |kept| <= i {
        assert r[i] == m[i - |kept|] && r[j] == m[j - |kept|];
      } else {
        assert r[i] in kept && r[j] in m;
      }
    }
    forall k: SectionKey ensures k in r {
      if k !in kept {
        assert k in m;
      }
    }
  }

  /** The result is split into the kept input keys, which are exactly the keys the input
      mentions and follow their first occurrences there, and the remaining keys, which
      are exactly the keys the input does not mention, in canonical order. */
  lemma NormalizedShape(order: Option<seq<Entry>>)
    ensures var s := Source(order);
            var kept := FirstOccurrences(s);
            var rest := Normalized(order)[|kept|..];
            Normalized(order) == kept + rest &&
            (forall k :: k in kept <==> Key(k) in s) &&
            (forall i, j :: 0 <= i < j < |kept| ==>
               IndexOf(s, Key(kept[i])) < IndexOf(s, Key(kept[j]))) &&
            (forall k :: k in rest <==> Key(k) !in s) &&
            InCanonicalOrder(rest)
  {
    var s := Source(order);
    var kept := FirstOccurrences(s);
    DefaultIsCanonical();
    FirstOccurrencesMembers(s);
    FirstOccurrencesOrder(s);
    AbsentMembers(DefaultSectionOrder, kept);
    AbsentInOrder(DefaultSectionOrder, kept);
    assert Normalized(order)[|kept|..] == Absent(DefaultSectionOrder, kept);
  }

  /** An absent, null or empty order gives the canonical order. */
  lemma NormalizedOfNothing()
    ensures Normalized(None) == DefaultSectionOrder
    ensures Normalized(Some([])) == DefaultSectionOrder
  {
    AbsentFromNothing(DefaultSectionOrder);
  }

  /** Distinct keys read back in the same order by the first loop. */
  lemma {:induction false} FirstOccurrencesOfDistinct(q: seq<SectionKey>)
    requires Distinct(q)
    ensures FirstOccurrences(Lift(q)) == q
  {
    DefaultHasEveryKey();
    if q != [] {
      var init := q[..|q| - 1];
      assert Lift(q)[..|q| - 1] == Lift(init);
      FirstOccurrencesOfDistinct(init);
      assert q[|q| - 1] !in init;
      assert q == init + [q[|q| - 1]];
    }
  }

  /** An order that already holds every key exactly once comes back unchanged. */
  lemma NormalizedFixesCompleteOrder(q: seq<SectionKey>)
    requires IsCompleteOrder(q)
    ensures Normalized(Some(Lift(q))) == q
  {
    FirstOccurrencesOfDistinct(q);
    AbsentFromAll(DefaultSectionOrder, q);
  }

  /** Normalising twice is normalising once. */
  lemma NormalizedIdempotent(order: Option<seq<Entry>>)
    ensures Normalized(Some(Lift(Normalized(order)))) == Normalized(order)
  {
    NormalizedIsComplete(order);
    NormalizedFixesCompleteOrder(Normalized(order));
  }

  // ---------------------------------------------------------------------------
  // "Exactly once" and "a permutation of the canonical order" agree

  lemma {:induction false} DistinctCounts<T>(s: seq<T>)
    requires Distinct(s)
    ensures forall x :: multiset(s)[x] == if x in s then 1 else 0
  {
    if s != [] {
      var init := s[..|s| - 1];
      DistinctCounts(init);
      assert s == init + [s[|s| - 1]];
    }
  }

  lemma RepeatCounts<T>(s: seq<T>, i: nat, j: nat)
    requires i < j < |s| && s[i] == s[j]
    ensures multiset(s)[s[i]] >= 2
  {
    assert s == s[..j] + s[j..];
    assert s[..j][i] == s[i];
    assert s[j..][0] == s[j];
    assert multiset(s) == multiset(s[..j]) + multiset(s[j..]);
  }

  /** Holding every key exactly once is being a permutation of DEFAULT_SECTION_ORDER;
      in particular such an order has seven elements. */
  lemma CompleteOrderIsPermutation(q: seq<SectionKey>)
    ensures IsCompleteOrder(q) <==> multiset(q) == multiset(DefaultSectionOrder)
    ensures IsCompleteOrder(q) ==> |q| == |DefaultSectionOrder| == 7
  {
    if IsCompleteOrder(q) {
      CompleteOrderCounts(q);
    }
    if multiset(q) == multiset(DefaultSectionOrder) {
      PermutationIsComplete(q);
    }
  }

  lemma CompleteOrderCounts(q: seq<SectionKey>)
    requires IsCompleteOrder(q)
    ensures multiset(q) == multiset(DefaultSectionOrder) && |q| == 7
  {
    DefaultIsDistinct();
    DefaultHasEveryKey();
    DistinctSameMembers(q, DefaultSectionOrder);
  }

  lemma PermutationIsComplete(q: seq<SectionKey>)
    requires multiset(q) == multiset(DefaultSectionOrder)
    ensures IsCompleteOrder(q)
  {
    DefaultIsDistinct();
    DefaultHasEveryKey();
    PermutationOfDistinct(q, DefaultSectionOrder);
    forall k: SectionKey ensures k in q {
      assert k in DefaultSectionOrder;
    }
  }

  /** Two duplicate-free sequences with the same members are permutations of each other. */
  lemma DistinctSameMembers<T>(a: seq<T>, b: seq<T>)
    requires Distinct(a) && Distinct(b) && forall x :: x in a <==> x in b
    ensures multiset(a) == multiset(b) && |a| == |b|
  {
    DistinctCounts(a);
    DistinctCounts(b);
    assert multiset(a) == multiset(b);
    assert |multiset(a)| == |a| && |multiset(b)| == |b|;
  }

  /** A permutation of a duplicate-free sequence is duplicate-free and has its members. */
  lemma PermutationOfDistinct<T>(q: seq<T>, b: seq<T>)
    requires multiset(q) == multiset(b) && Distinct(b)
    ensures Distinct(q) && forall x :: x in q <==> x in b
  {
    DistinctCounts(b);
    forall x ensures x in q <==> x in b {
      assert x in q <==> x in multiset(q);
    }
    forall i, j | 0 <= i < j < |q| ensures q[i] != q[j] {
      if q[i] == q[j] {
        RepeatCounts(q, i, j);
        assert false;
      }
    }
  }

  /** A permutation of DEFAULT_SECTION_ORDER comes back unchanged. */
  lemma NormalizedFixesPermutation(q: seq<SectionKey>)
    requires multiset(q) == multiset(DefaultSectionOrder)
    ensures Normalized(Some(Lift(q))) == q
  {
    CompleteOrderIsPermutation(q);
    NormalizedFixesCompleteOrder(q);
  }

  /** An unknown value is dropped and a lone known key leads the result. */
  lemma UnknownKeyDropped()
    ensures Normalized(Some([Foreign("photo"), Key(Education)])) ==
      [Education, PersonalInfo, Projects, WorkExperience, Skills, Honors, Summary]
  {
    UnknownKeyDroppedFirstLoop();
    UnknownKeyDroppedSecondLoop();
  }

  lemma UnknownKeyDroppedFirstLoop()
    ensures FirstOccurrences([Foreign("photo"), Key(Education)]) == [Education]
  {
  }

  lemma UnknownKeyDroppedSecondLoop()
    ensures Absent(DefaultSectionOrder, [Education]) ==
      [PersonalInfo, Projects, WorkExperience, Skills, Honors, Summary]
  {
    var p := [Education];
    var c1 := [PersonalInfo];
    var c2 := c1 + [Education];
    var c3 := c2 + [Projects];
    var c4 := c3 + [WorkExperience];
    var c5 := c4 + [Skills];
    var c6 := c5 + [Honors];
    var c7 := c6 + [Summary];
    assert c7 == DefaultSectionOrder;
    assert [] + [PersonalInfo] == c1;
    AbsentSnoc([], PersonalInfo, p);
    AbsentSnoc(c1, Education, p);
    AbsentSnoc(c2, Projects, p);
    AbsentSnoc(c3, WorkExperience, p);
    AbsentSnoc(c4, Skills, p);
    AbsentSnoc(c5, Honors, p);
    AbsentSnoc(c6, Summary, p);
  }
}
