/** `compareFaces`: the nearest registered face within a distance threshold.
    The distance between two descriptors is supplied by the caller; the
    program uses the library's Euclidean distance over 32-bit floats. */
module FaceMatcher {
  import opened Records
  import opened Sequences

  /** The threshold the program uses when the caller passes none. */
  const DefaultThreshold: real := 0.6

  datatype Match = Match(student: Student, distance: real)

  /** Distance from the observed descriptor to a student's stored one. */
  function DistanceTo(distance: (Descriptor, Descriptor) -> real, observed: Descriptor, st: Student): real
    requires st.faceDescriptor.Some?
  {
    distance(observed, st.faceDescriptor.value)
  }

  // ---------------------------------------------------------- specification

  /** `k` is the first index, among students with a descriptor, whose
      distance is the minimum, and that minimum is below the threshold. */
  predicate IsFirstNearest(distance: (Descriptor, Descriptor) -> real, observed: Descriptor,
                           students: seq<Student>, threshold: real, k: int)
  {
    && 0 <= k < |students|
    && students[k].faceDescriptor.Some?
    && DistanceTo(distance, observed, students[k]) < threshold
    && (forall j :: 0 <= j < |students| && students[j].faceDescriptor.Some? ==>
          DistanceTo(distance, observed, students[k]) <= DistanceTo(distance, observed, students[j]))
    && (forall j :: 0 <= j < k && students[j].faceDescriptor.Some? ==>
          DistanceTo(distance, observed, students[k]) < DistanceTo(distance, observed, students[j]))
  }

  /** No student with a descriptor is strictly closer than the threshold. */
  predicate NoneWithin(distance: (Descriptor, Descriptor) -> real, observed: Descriptor,
                       students: seq<Student>, threshold: real)
  {
    forall j :: 0 <= j < |students| && students[j].faceDescriptor.Some? ==>
      DistanceTo(distance, observed, students[j]) >= threshold
  }

  /** One turn of the scan: a student without a descriptor is skipped; one
      replaces the current best only when strictly closer than both the
      running minimum (infinity while there is no best) and the threshold. */
  function Step(distance: (Descriptor, Descriptor) -> real, observed: Descriptor, threshold: real,
                best: Option<Match>, st: Student): Option<Match>
  {
    if st.faceDescriptor.None? then best
    else
      var d := DistanceTo(distance, observed, st);
      if (best.None? || d < best.value.distance) && d < threshold then Some(Match(st, d)) else best
  }

  /** The scan over `students` in input order. */
  function Scan(distance: (Descriptor, Descriptor) -> real, observed: Descriptor,
                students: seq<Student>, threshold: real): Option<Match>
  {
    if students == [] then None
    else Step(distance, observed, threshold,
              Scan(distance, observed, students[..|students| - 1], threshold), students[|students| - 1])
  }

  /** What `compareFaces` returns: no match for an absent descriptor or an
      empty student list, otherwise the result of the scan. */
  function Nearest(distance: (Descriptor, Descriptor) -> real, observed: Option<Descriptor>,
                   students: seq<Student>, threshold: real): Option<Match>
  {
    if observed.None? || |students| == 0 then None
    else Scan(distance, observed.value, students, threshold)
  }

  /** The scan finds nothing exactly when no student is within the threshold,
      and otherwise finds the first student at the minimum distance, paired
      with that distance. The index is returned as a witness. */
  lemma {:induction false} ScanFindsFirstNearest(distance: (Descriptor, Descriptor) -> real, observed: Descriptor,
                                                 students: seq<Student>, threshold: real)
    returns (k: int)
    ensures Scan(distance, observed, students, threshold).None? <==> NoneWithin(distance, observed, students, threshold)
    ensures Scan(distance, observed, students, threshold).Some? ==>
              && IsFirstNearest(distance, observed, students, threshold, k)
              && Scan(distance, observed, students, threshold).value
                 == Match(students[k], DistanceTo(distance, observed, students[k]))
  {
    if students == [] {
      k := -1;
      return;
    }
    var n := |students| - 1;
    var prefix, st := students[..n], students[n];
    assert forall j :: 0 <= j < n ==> prefix[j] == students[j];
    var k' := ScanFindsFirstNearest(distance, observed, prefix, threshold);
    var best := Scan(distance, observed, prefix, threshold);
    if st.faceDescriptor.None? {
      k := k';
    } else {
      var d := DistanceTo(distance, observed, st);
      if (best.None? || d < best.value.distance) && d < threshold {
        k := n;
        forall j | 0 <= j < n && students[j].faceDescriptor.Some?
          ensures d < DistanceTo(distance, observed, students[j])
        {
          assert prefix[j] == students[j];
        }
      } else {
        k := k';
      }
    }
  }

  /** `compareFaces(faceDescriptor, registeredStudents, threshold = 0.6)`. */
  method CompareFaces(distance: (Descriptor, Descriptor) -> real, observed: Option<Descriptor>,
                      students: seq<Student>, threshold: real := DefaultThreshold)
    returns (r: Option<Match>)
    ensures r == Nearest(distance, observed, students, threshold)
    ensures r.None? <==> observed.None? || NoneWithin(distance, observed.value, students, threshold)
    ensures r.Some? ==> exists k ::
              && IsFirstNearest(distance, observed.value, students, threshold, k)
              && r.value == Match(students[k], DistanceTo(distance, observed.value, students[k]))
  {
    if observed.None? || |students| == 0 {
      return None;
    }
    var descriptor := observed.value;
    var minDistance: Option<real> := None;  // None stands for Infinity
    var matchedStudent: Option<Student> := None;
    for i := 0 to |students|
      invariant minDistance.Some? <==> matchedStudent.Some?
      invariant Scan(distance, descriptor, students[..i], threshold)
             == if matchedStudent.Some? then Some(Match(matchedStudent.value, minDistance.value)) else None
    {
      assert students[..i + 1][..i] == students[..i];
      var student := students[i];
      if student.faceDescriptor.Some? {
        var d := distance(descriptor, student.faceDescriptor.value);
        if (minDistance.None? || d < minDistance.value) && d < threshold {
          minDistance := Some(d);
          matchedStudent := Some(student);
        }
      }
    }
    assert students[..|students|] == students;
    r := if matchedStudent.Some? then Some(Match(matchedStudent.value, minDistance.value)) else None;
    var k := ScanFindsFirstNearest(distance, descriptor, students, threshold);
  }

  // ------------------------------------------------------------ properties

  /** Ties resolve to the earlier student: when two distinct students with
      descriptors are at the same distance, below the threshold, the result
      is the first of the two, and swapping them swaps the result. */
  lemma TieGoesToFirst(distance: (Descriptor, Descriptor) -> real, observed: Descriptor,
                       a: Student, b: Student, threshold: real)
    requires a.faceDescriptor.Some? && b.faceDescriptor.Some?
    requires DistanceTo(distance, observed, a) == DistanceTo(distance, observed, b) < threshold
    ensures Nearest(distance, Some(observed), [a, b], threshold)
         == Some(Match(a, DistanceTo(distance, observed, a)))
    ensures Nearest(distance, Some(observed), [b, a], threshold)
         == Some(Match(b, DistanceTo(distance, observed, b)))
  {
    var d := DistanceTo(distance, observed, a);
    assert [a, b][..1] == [a] && [a][..0] == [];
    assert Scan(distance, observed, [a], threshold) == Some(Match(a, d));
    assert Scan(distance, observed, [a, b], threshold) == Some(Match(a, d));
    assert [b, a][..1] == [b] && [b][..0] == [];
    assert Scan(distance, observed, [b], threshold) == Some(Match(b, d));
    assert Scan(distance, observed, [b, a], threshold) == Some(Match(b, d));
  }

  /** `compareFaces(descriptor, students)` without a threshold argument
      uses 0.6: any match it reports is closer than 0.6, and it reports one
      whenever some student with a descriptor is closer than 0.6. */
  lemma DefaultThresholdMatch(distance: (Descriptor, Descriptor) -> real, observed: Descriptor,
                              students: seq<Student>)
    ensures Nearest(distance, Some(observed), students, DefaultThreshold).Some? ==>
              Nearest(distance, Some(observed), students, DefaultThreshold).value.distance < 0.6
    ensures (exists j :: 0 <= j < |students| && students[j].faceDescriptor.Some?
                       && DistanceTo(distance, observed, students[j]) < 0.6) ==>
              Nearest(distance, Some(observed), students, DefaultThreshold).Some?
  {
    var k := ScanFindsFirstNearest(distance, observed, students, DefaultThreshold);
  }

  /** No two different candidates share a distance below the threshold. */
  predicate NoTies(distance: (Descriptor, Descriptor) -> real, observed: Descriptor,
                   students: seq<Student>, threshold: real)
  {
    forall i, j ::
      && 0 <= i < |students| && 0 <= j < |students|
      && students[i].faceDescriptor.Some? && students[j].faceDescriptor.Some?
      && DistanceTo(distance, observed, students[i]) < threshold
      && DistanceTo(distance, observed, students[i]) == DistanceTo(distance, observed, students[j])
      ==> students[i] == students[j]
  }

  lemma NoneWithinMembers(distance: (Descriptor, Descriptor) -> real, observed: Descriptor,
                          s: seq<Student>, t: seq<Student>, threshold: real)
    requires forall x :: x in t ==> x in s
    requires NoneWithin(distance, observed, s, threshold)
    ensures NoneWithin(distance, observed, t, threshold)
  {
    forall j | 0 <= j < |t| && t[j].faceDescriptor.Some?
      ensures DistanceTo(distance, observed, t[j]) >= threshold
    {
      assert t[j] in s;
      var m :| 0 <= m < |s| && s[m] == t[j];
    }
  }

  /** Without ties, the order of the registered students does not matter. */
  lemma NearestIgnoresOrderWithoutTies(distance: (Descriptor, Descriptor) -> real, observed: Descriptor,
                                       s: seq<Student>, t: seq<Student>, threshold: real)
    requires multiset(s) == multiset(t)
    requires NoTies(distance, observed, s, threshold)
    ensures Nearest(distance, Some(observed), s, threshold) == Nearest(distance, Some(observed), t, threshold)
  {
    assert |s| == |multiset(s)| == |multiset(t)| == |t|;
    PermutationMembers(s, t);
    var ks := ScanFindsFirstNearest(distance, observed, s, threshold);
    var kt := ScanFindsFirstNearest(distance, observed, t, threshold);
    var rs, rt := Scan(distance, observed, s, threshold), Scan(distance, observed, t, threshold);
    if NoneWithin(distance, observed, s, threshold) {
      NoneWithinMembers(distance, observed, s, t, threshold);
    }
    if NoneWithin(distance, observed, t, threshold) {
      NoneWithinMembers(distance, observed, t, s, threshold);
    }
    if rs.Some? {
      assert s[ks] in t && t[kt] in s;
      var ms :| 0 <= ms < |t| && t[ms] == s[ks];
      var mt :| 0 <= mt < |s| && s[mt] == t[kt];
      assert DistanceTo(distance, observed, s[ks]) == DistanceTo(distance, observed, t[kt]);
      assert s[mt] == s[ks];
    }
  }
}
