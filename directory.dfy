/** The doctor table and the specialty filter applied to it (app.py, "Filter doctors"). */
module Directory {
  import opened Seqs

  /** One row of the doctors table: the columns Name, Specialty, Distance, lat and lng. */
  datatype Doctor = Doctor(name: string, specialty: string, distance: real, lat: real, lng: real)

  /** `doctors_df[doctors_df["Specialty"].isin(wanted)]`: the boolean mask keeps, in table
      order, every row whose specialty is one of `wanted`. */
  function SelectBySpecialty(doctors: seq<Doctor>, wanted: seq<string>): seq<Doctor>
  {
    if doctors == [] then []
    else
      (if doctors[0].specialty in wanted then [doctors[0]] else [])
        + SelectBySpecialty(doctors[1..], wanted)
  }

  /** The filtered table: the masked rows when some specialty was extracted, and an empty
      table when none was. */
  function FilterDoctors(doctors: seq<Doctor>, wanted: seq<string>): (r: seq<Doctor>)
    ensures forall d :: d in r ==> d in doctors && d.specialty in wanted
  {
    SelectMembership(doctors, wanted);
    if |wanted| > 0 then SelectBySpecialty(doctors, wanted) else []
  }

  /** A row is kept exactly when it is in the table and its specialty is wanted. */
  lemma {:induction false} SelectMembership(doctors: seq<Doctor>, wanted: seq<string>)
    ensures forall d :: d in SelectBySpecialty(doctors, wanted) <==> d in doctors && d.specialty in wanted
  {
    if doctors != [] {
      SelectMembership(doctors[1..], wanted);
      assert doctors == [doctors[0]] + doctors[1..];
    }
  }

  /** The kept rows keep their relative order from the table. */
  lemma {:induction false} SelectIsSubsequence(doctors: seq<Doctor>, wanted: seq<string>)
    ensures IsSubsequence(SelectBySpecialty(doctors, wanted), doctors)
  {
    if doctors != [] {
      SelectIsSubsequence(doctors[1..], wanted);
      var rest := SelectBySpecialty(doctors[1..], wanted);
      if doctors[0].specialty in wanted {
        assert ([doctors[0]] + rest)[1..] == rest;
      } else {
        assert SelectBySpecialty(doctors, wanted) == rest;
        SkipHeadKeepsSubsequence(rest, doctors);
      }
    }
  }

  /** A subsequence of the tail of `ys` is a subsequence of `ys`. */
  lemma {:induction false} SkipHeadKeepsSubsequence(xs: seq<Doctor>, ys: seq<Doctor>)
    requires ys != [] && IsSubsequence(xs, ys[1..])
    ensures IsSubsequence(xs, ys)
    decreases |ys|, 0
  {
    if xs != [] && xs[0] == ys[0] {
      SubsequenceOfTail(xs, ys[1..]);
    }
  }

  /** A subsequence stays one when its first element is dropped. */
  lemma {:induction false} SubsequenceOfTail(xs: seq<Doctor>, ys: seq<Doctor>)
    requires xs != [] && IsSubsequence(xs, ys)
    ensures IsSubsequence(xs[1..], ys)
    decreases |ys|, 1
  {
    if xs[0] == ys[0] {
      SkipHeadKeepsSubsequence(xs[1..], ys);
    } else {
      SubsequenceOfTail(xs, ys[1..]);
      SkipHeadKeepsSubsequence(xs[1..], ys);
    }
  }

  /** Nothing is kept exactly when no row has a wanted specialty. */
  lemma {:induction false} SelectEmptyIff(doctors: seq<Doctor>, wanted: seq<string>)
    ensures SelectBySpecialty(doctors, wanted) == []
        <==> forall i :: 0 <= i < |doctors| ==> doctors[i].specialty !in wanted
  {
    if doctors != [] {
      SelectEmptyIff(doctors[1..], wanted);
      if forall i :: 0 <= i < |doctors| ==> doctors[i].specialty !in wanted {
        assert forall i :: 0 <= i < |doctors| - 1 ==> doctors[1..][i] == doctors[i + 1];
      } else if doctors[0].specialty !in wanted {
        var i :| 0 <= i < |doctors| && doctors[i].specialty in wanted;
        assert doctors[1..][i - 1] == doctors[i];
      }
    }
  }

  /** Each wanted row is kept as many times as it occurs in the table, and no other row is kept. */
  lemma {:induction false} SelectCounts(doctors: seq<Doctor>, wanted: seq<string>, d: Doctor)
    ensures multiset(SelectBySpecialty(doctors, wanted))[d]
         == if d.specialty in wanted then multiset(doctors)[d] else 0
  {
    if doctors != [] {
      SelectCounts(doctors[1..], wanted, d);
      assert doctors == [doctors[0]] + doctors[1..];
    }
  }

  /** The filter is the mask and nothing else: the explicit empty-table branch agrees with
      what masking by an empty list gives. */
  lemma FilterIsSelection(doctors: seq<Doctor>, wanted: seq<string>)
    ensures FilterDoctors(doctors, wanted) == SelectBySpecialty(doctors, wanted)
  {
  }

  /** The filter returns exactly the wanted rows, in table order: a subsequence of the
      table holding each wanted row as often as the table does and no other row. */
  lemma FilterExact(doctors: seq<Doctor>, wanted: seq<string>)
    ensures IsSubsequence(FilterDoctors(doctors, wanted), doctors)
    ensures forall d :: multiset(FilterDoctors(doctors, wanted))[d]
                     == if d.specialty in wanted then multiset(doctors)[d] else 0
  {
    FilterIsSelection(doctors, wanted);
    SelectIsSubsequence(doctors, wanted);
    forall d
      ensures multiset(FilterDoctors(doctors, wanted))[d]
           == if d.specialty in wanted then multiset(doctors)[d] else 0
    {
      SelectCounts(doctors, wanted, d);
    }
  }

  /** The filter comes back empty exactly when no row of the table has a wanted specialty;
      in particular it does when nothing was extracted, whatever the table holds. */
  lemma FilterEmptyIff(doctors: seq<Doctor>, wanted: seq<string>)
    ensures FilterDoctors(doctors, wanted) == []
        <==> forall i :: 0 <= i < |doctors| ==> doctors[i].specialty !in wanted
  {
    FilterIsSelection(doctors, wanted);
    SelectEmptyIff(doctors, wanted);
  }

  /** Two cardiologists and a neurologist, filtered for cardiologists: the two
      cardiologists, in table order. */
  lemma FilterKeepsCardiologistsInOrder(d1: Doctor, d2: Doctor, d3: Doctor)
    requires d1.specialty == "Cardiologist" && d2.specialty == "Neurologist" && d3.specialty == "Cardiologist"
    ensures FilterDoctors([d1, d2, d3], ["Cardiologist"]) == [d1, d3]
  {
    var wanted := ["Cardiologist"];
    assert [d1, d2, d3][1..] == [d2, d3] && [d2, d3][1..] == [d3] && [d3][1..] == [];
    assert SelectBySpecialty([d3], wanted) == [d3];
    assert SelectBySpecialty([d2, d3], wanted) == [d3];
    assert SelectBySpecialty([d1, d2, d3], wanted) == [d1, d3];
  }
}
