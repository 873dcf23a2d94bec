/**
  The names users give their fingers, kept beside the fingers a reader reports
  (FingerNameConfig in service/fingerprint/fprintd_device.go): an ordered list of standard
  names and a map from standard names to given names.
 */
module FingerNames {
  import opened Collections

  datatype Index = Index(names: seq<string>, fingers: map<string, string>)

  /** The list has no duplicates and lists exactly the keys of the map. */
  ghost predicate Agrees(x: Index) {
    Distinct(x.names) && forall n :: n in x.names <==> n in x.fingers
  }

  // ---------- the operations on values ----------

  function SetName(x: Index, std: string, finger: string): Index {
    Index(if std in x.fingers then x.names else x.names + [std], x.fingers[std := finger])
  }

  function Without(s: seq<string>, n: string): seq<string> {
    if s == [] then []
    else Without(s[..|s| - 1], n) + if s[|s| - 1] == n then [] else [s[|s| - 1]]
  }

  function DeleteName(x: Index, std: string): Index {
    Index(Without(x.names, std), x.fingers - {std})
  }

  function WithoutFirst(s: seq<string>, n: string): seq<string> {
    if s == [] then [] else if s[0] == n then s[1..] else [s[0]] + WithoutFirst(s[1..], n)
  }

  /** delete on any configuration: the map is looked at only if the list has the finger. */
  function DeleteOnce(x: Index, std: string): Index {
    if std in x.names then Index(WithoutFirst(x.names, std), x.fingers - {std}) else x
  }

  /** The members of s that are in t, in the order of s. */
  function Restrict(s: seq<string>, t: seq<string>): seq<string> {
    if s == [] then []
    else Restrict(s[..|s| - 1], t) + if s[|s| - 1] in t then [s[|s| - 1]] else []
  }

  /** Every reported finger that is not known yet is added under its standard name. */
  function AddMissing(x: Index, reported: seq<string>): Index {
    if reported == [] then x
    else
      var y, v := AddMissing(x, reported[..|reported| - 1]), reported[|reported| - 1];
      if v in y.names then y else SetName(y, v, v)
  }

  /** A finger the map does not know has the empty name. */
  function GivenName(fingers: map<string, string>, std: string): string {
    if std in fingers then fingers[std] else ""
  }

  function GivenNames(fingers: map<string, string>, names: seq<string>): (given: seq<string>)
    ensures |given| == |names| && forall i | 0 <= i < |names| :: given[i] == GivenName(fingers, names[i])
  {
    if names == [] then [] else GivenNames(fingers, names[..|names| - 1]) + [GivenName(fingers, names[|names| - 1])]
  }

  /** The names of the missing fingers go behind those already found. */
  function FillIn(x: Index, found: seq<string>, reported: seq<string>): (Index, seq<string>) {
    if reported == [] then (x, found)
    else
      var y, v := FillIn(x, found, reported[..|reported| - 1]), reported[|reported| - 1];
      if v in y.0.names then y else (SetName(y.0, v, v), y.1 + [v])
  }

  /** getFingerNames on any configuration, whether list and map agree or not. */
  function FingerNamesOf(x: Index, reported: seq<string>): (Index, seq<string>) {
    var found := GivenNames(x.fingers, Restrict(x.names, reported));
    if |found| == |reported| then (x, found) else FillIn(x, found, reported)
  }

  // ---------- the invariant ----------

  lemma {:induction false} WithoutIs(s: seq<string>, n: string)
    requires Distinct(s)
    ensures Distinct(Without(s, n))
    ensures forall m :: m in Without(s, n) <==> m in s && m != n
    ensures n !in s ==> Without(s, n) == s
  {
    if s != [] {
      var init, last := s[..|s| - 1], s[|s| - 1];
      WithoutIs(init, n);
      assert s == init + [last];
      assert last !in init;
    }
  }

  /** Deleting shifts the rest by one place and keeps its order. */
  lemma {:induction false} WithoutShifts(s: seq<string>, i: nat)
    requires Distinct(s) && i < |s|
    ensures Without(s, s[i]) == s[..i] + s[i + 1..]
  {
    var init, last := s[..|s| - 1], s[|s| - 1];
    if i == |s| - 1 {
      WithoutIs(init, last);
      assert last !in init;
      assert s[..i] + s[i + 1..] == init;
    } else {
      WithoutShifts(init, i);
      assert s[i] != last;
      assert s[..i] + s[i + 1..] == init[..i] + init[i + 1..] + [last];
    }
  }

  lemma OperationsKeepAgreement(x: Index, std: string, finger: string)
    requires Agrees(x)
    ensures Agrees(SetName(x, std, finger))
    ensures Agrees(DeleteName(x, std))
    ensures std in x.fingers ==> Agrees(x.(fingers := x.fingers[std := finger]))
  {
    WithoutIs(x.names, std);
  }

  /** Naming a new finger and deleting it again restores list and map. */
  lemma DeleteUndoesSet(x: Index, std: string, finger: string)
    requires Agrees(x) && std !in x.fingers
    ensures DeleteName(SetName(x, std, finger), std) == x
  {
    assert (x.names + [std])[..|x.names|] == x.names;
    WithoutIs(x.names, std);
    assert x.fingers[std := finger] - {std} == x.fingers;
  }

  lemma {:induction false} AddMissingAgrees(x: Index, reported: seq<string>)
    requires Agrees(x)
    ensures Agrees(AddMissing(x, reported))
    ensures forall n :: n in AddMissing(x, reported).names <==> n in x.names || n in reported
    ensures x.names <= AddMissing(x, reported).names
    ensures forall n | n in x.fingers :: AddMissing(x, reported).fingers[n] == x.fingers[n]
    ensures forall n | n in reported && n !in x.fingers :: AddMissing(x, reported).fingers[n] == n
  {
    if reported != [] {
      var init, v := reported[..|reported| - 1], reported[|reported| - 1];
      AddMissingAgrees(x, init);
      assert reported == init + [v];
      OperationsKeepAgreement(AddMissing(x, init), v, v);
    }
  }

  // ---------- the cardinality behind the early return ----------

  lemma {:induction false} RestrictIs(s: seq<string>, t: seq<string>)
    requires Distinct(s)
    ensures Distinct(Restrict(s, t))
    ensures forall n :: n in Restrict(s, t) <==> n in s && n in t
  {
    if s != [] {
      var init, last := s[..|s| - 1], s[|s| - 1];
      RestrictIs(init, t);
      assert s == init + [last];
      assert last !in init;
    }
  }

  /**
    When as many known names as reported fingers match, every reported finger is known:
    nothing is missing, even if the reader reports some finger twice.
   */
  lemma EqualLengthsMeanNothingMissing(names: seq<string>, reported: seq<string>)
    requires Distinct(names) && |Restrict(names, reported)| == |reported|
    ensures forall n | n in reported :: n in names
    ensures Distinct(reported)
  {
    var matching := Restrict(names, reported);
    RestrictIs(names, reported);
    MembersSize(matching);
    MembersSize(reported);
    SubsetSize(Members(matching), Members(reported));
    forall n | n in reported ensures n in names {
      assert n in Members(reported);
      assert n in Members(matching);
    }
  }

  lemma {:induction false} NothingMissing(x: Index, reported: seq<string>)
    requires forall n | n in reported :: n in x.names
    ensures AddMissing(x, reported) == x
  {
    if reported != [] {
      NothingMissing(x, reported[..|reported| - 1]);
    }
  }

  /** The given names of the reported fingers, in the order of the list. */
  function Reported(x: Index, reported: seq<string>): seq<string> {
    GivenNames(x.fingers, Restrict(x.names, reported))
  }

  /**
    Afterwards the list covers the reader's list, one name is returned per different finger
    reported, and as many as were reported exactly when none was reported twice.
   */
  lemma OneNamePerFinger(x: Index, reported: seq<string>)
    requires Agrees(x)
    ensures var y := AddMissing(x, reported);
            && Agrees(y)
            && (forall n | n in reported :: n in y.names)
            && |Reported(y, reported)| == |Members(reported)|
            && (|Reported(y, reported)| == |reported| <==> Distinct(reported))
  {
    AddMissingAgrees(x, reported);
    var y := AddMissing(x, reported);
    RestrictIs(y.names, reported);
    MembersSize(Restrict(y.names, reported));
    MembersSize(reported);
    assert Members(Restrict(y.names, reported)) == Members(reported);
  }

  /** Asking again with the same list changes nothing and returns the same names. */
  lemma AskingAgainChangesNothing(x: Index, reported: seq<string>)
    requires Agrees(x)
    ensures AddMissing(AddMissing(x, reported), reported) == AddMissing(x, reported)
  {
    AddMissingAgrees(x, reported);
    NothingMissing(AddMissing(x, reported), reported);
  }

  lemma {:induction false} GivenNamesStable(fingers: map<string, string>, fingers': map<string, string>,
        names: seq<string>)
    requires forall n | n in names :: n in fingers && n in fingers' && fingers[n] == fingers'[n]
    ensures GivenNames(fingers, names) == GivenNames(fingers', names)
  {
  }

  lemma GivenNamesStep(fingers: map<string, string>, names: seq<string>, v: string)
    ensures GivenNames(fingers, names + [v]) == GivenNames(fingers, names) + [GivenName(fingers, v)]
  {
    assert (names + [v])[..|names|] == names;
  }

  /** Adding a reported finger appends its name to what is returned. */
  lemma ReportedGrows(x: Index, reported: seq<string>, v: string)
    requires Agrees(x) && v !in x.names && v in reported
    ensures Agrees(SetName(x, v, v))
    ensures Reported(SetName(x, v, v), reported) == Reported(x, reported) + [v]
  {
    var y := SetName(x, v, v);
    OperationsKeepAgreement(x, v, v);
    RestrictIs(x.names, reported);
    var known := Restrict(x.names, reported);
    assert y.names[..|y.names| - 1] == x.names && y.names[|y.names| - 1] == v;
    assert Restrict(y.names, reported) == known + [v];
    GivenNamesStep(y.fingers, known, v);
    GivenNamesStable(x.fingers, y.fingers, known);
  }

  lemma FillInStep(x: Index, found: seq<string>, reported: seq<string>, i: nat)
    requires i < |reported|
    ensures var y, v := FillIn(x, found, reported[..i]), reported[i];
            FillIn(x, found, reported[..i + 1]) == if v in y.0.names then y else (SetName(y.0, v, v), y.1 + [v])
    ensures var y, v := AddMissing(x, reported[..i]), reported[i];
            AddMissing(x, reported[..i + 1]) == if v in y.names then y else SetName(y, v, v)
  {
    assert reported[..i + 1][..i] == reported[..i];
  }

  lemma {:induction false} FillInIs(x: Index, reported: seq<string>, i: nat)
    requires Agrees(x) && i <= |reported|
    ensures FillIn(x, Reported(x, reported), reported[..i]).0 == AddMissing(x, reported[..i])
    ensures FillIn(x, Reported(x, reported), reported[..i]).1 == Reported(AddMissing(x, reported[..i]), reported)
    ensures Agrees(AddMissing(x, reported[..i]))
  {
    if i > 0 {
      FillInIs(x, reported, i - 1);
      FillInStep(x, Reported(x, reported), reported, i - 1);
      var y, v := AddMissing(x, reported[..i - 1]), reported[i - 1];
      if v !in y.names {
        ReportedGrows(y, reported, v);
      }
    }
  }

  /** When list and map agree, the reported names are returned in list order after adding what is missing. */
  lemma FingerNamesWhenAgreed(x: Index, reported: seq<string>)
    requires Agrees(x)
    ensures FingerNamesOf(x, reported) == (AddMissing(x, reported), Reported(AddMissing(x, reported), reported))
  {
    if |Restrict(x.names, reported)| == |reported| {
      EqualLengthsMeanNothingMissing(x.names, reported);
      NothingMissing(x, reported);
    } else {
      FillInIs(x, reported, |reported|);
      assert reported[..|reported|] == reported;
    }
  }

  // ---------- configurations in which list and map do not agree ----------

  ghost predicate Covers(x: Index, reported: seq<string>) {
    forall n | n in reported :: n in FingerNamesOf(x, reported).0.names
  }

  lemma {:induction false} FillInCovers(x: Index, found: seq<string>, reported: seq<string>)
    requires forall n | n in reported :: n in x.fingers ==> n in x.names
    ensures var y := FillIn(x, found, reported).0;
            && (forall n | n in x.names :: n in y.names)
            && (forall n | n in reported :: n in y.names)
            && (forall n | n in y.fingers :: n in x.fingers || n in y.names)
  {
    if reported != [] {
      var init, v := reported[..|reported| - 1], reported[|reported| - 1];
      assert reported == init + [v];
      FillInCovers(x, found, init);
    }
  }

  lemma {:induction false} LongName(names: seq<string>) returns (n: string)
    ensures forall m | m in names :: |m| < |n|
  {
    if names == [] {
      n := "";
    } else {
      var shorter := LongName(names[..|names| - 1]);
      var last := names[|names| - 1];
      n := shorter + last + "x";
      assert names == names[..|names| - 1] + [last];
    }
  }

  lemma {:induction false} RestrictAll(s: seq<string>, t: seq<string>)
    requires forall n | n in s :: n in t
    ensures Restrict(s, t) == s
  {
    if s != [] {
      assert s == s[..|s| - 1] + [s[|s| - 1]];
      RestrictAll(s[..|s| - 1], t);
    }
  }

  /** A list that repeats a name, and a report that is as long but names another finger. */
  lemma RepeatedNameMisses(x: Index) returns (reported: seq<string>)
    requires !Distinct(x.names)
    ensures !Covers(x, reported)
  {
    var i, j :| 0 <= i < j < |x.names| && x.names[i] == x.names[j];
    var b := LongName(x.names);
    reported := x.names[..j] + x.names[j + 1..] + [b];
    forall n | n in x.names ensures n in reported {
      var k :| 0 <= k < |x.names| && x.names[k] == n;
      if k < j {
        assert reported[k] == n;
      } else if k == j {
        assert reported[i] == n;
      } else {
        assert reported[k - 1] == n;
      }
    }
    RestrictAll(x.names, reported);
    assert reported[|reported| - 1] == b;
    assert b in reported && b !in x.names;
  }

  /** A finger that is in the map only is named, but not put on the list. */
  lemma UnlistedFingerMisses(x: Index, n: string)
    requires n in x.fingers && n !in x.names
    ensures !Covers(x, [n])
  {
    RestrictNone(x.names, [n]);
    var found: seq<string> := [];
    FillInStep(x, found, [n], 0);
    assert [n][..1] == [n] && FillIn(x, found, [n]).0 == SetName(x, n, n);
    assert n in [n];
  }

  lemma {:induction false} RestrictNone(s: seq<string>, t: seq<string>)
    requires forall n | n in s :: n !in t
    ensures Restrict(s, t) == []
  {
    if s != [] {
      assert s == s[..|s| - 1] + [s[|s| - 1]];
      RestrictNone(s[..|s| - 1], t);
    }
  }

  /**
    Whatever the configuration file holds, the list covers every possible report afterwards
    exactly when it repeats no name and lists every finger of the map. With a repeated name
    the equal lengths of the early return can hide a finger that is missing.
   */
  lemma CoversExactly(x: Index)
    ensures (forall reported :: Covers(x, reported))
            <==> Distinct(x.names) && forall n | n in x.fingers :: n in x.names
  {
    if n :| n in x.fingers && n !in x.names {
      UnlistedFingerMisses(x, n);
    } else if Distinct(x.names) {
      forall reported ensures Covers(x, reported) {
        if |Restrict(x.names, reported)| == |reported| {
          EqualLengthsMeanNothingMissing(x.names, reported);
        } else {
          FillInCovers(x, Reported(x, reported), reported);
        }
      }
    } else {
      var reported := RepeatedNameMisses(x);
    }
  }

  lemma RestrictStep(s: seq<string>, i: nat, t: seq<string>)
    requires i < |s|
    ensures Restrict(s[..i + 1], t) == Restrict(s[..i], t) + if s[i] in t then [s[i]] else []
  {
    assert s[..i + 1][..i] == s[..i];
  }

  // ---------- the name a finger was given ----------

  lemma {:induction false} RestrictToOne(s: seq<string>, n: string)
    requires Distinct(s) && n in s
    ensures Restrict(s, [n]) == [n]
  {
    var init, last := s[..|s| - 1], s[|s| - 1];
    assert s == init + [last];
    if last == n {
      assert forall m | m in init :: m !in [n];
      RestrictNone(init, [n]);
    } else {
      RestrictToOne(init, n);
    }
  }

  /** Asked for one finger that is listed once, the daemon tells its given name, or the empty one. */
  lemma AskedForOne(x: Index, n: string)
    requires Distinct(x.names) && n in x.names
    ensures FingerNamesOf(x, [n]) == (x, [if n in x.fingers then x.fingers[n] else ""])
  {
    RestrictToOne(x.names, n);
    assert GivenNames(x.fingers, [n])[0] == GivenName(x.fingers, n);
    assert GivenNames(x.fingers, [n]) == [GivenName(x.fingers, n)];
  }

  /** Naming a finger puts it on the list, gives it that name, and changes no other finger. */
  lemma NamedExactly(x: Index, std: string, finger: string)
    requires Agrees(x)
    ensures FingerNamesOf(SetName(x, std, finger), [std]) == (SetName(x, std, finger), [finger])
    ensures forall n | n in x.names && n != std ::
              FingerNamesOf(SetName(x, std, finger), [n]).1 == FingerNamesOf(x, [n]).1
  {
    var y := SetName(x, std, finger);
    OperationsKeepAgreement(x, std, finger);
    AskedForOne(y, std);
    forall n | n in x.names && n != std ensures FingerNamesOf(y, [n]).1 == FingerNamesOf(x, [n]).1 {
      AskedForOne(x, n);
      AskedForOne(y, n);
    }
  }

  // ---------- deleting from any configuration ----------

  lemma {:induction false} WithoutFirstAt(s: seq<string>, i: nat)
    requires i < |s| && forall j | 0 <= j < i :: s[j] != s[i]
    ensures WithoutFirst(s, s[i]) == s[..i] + s[i + 1..]
  {
    if i > 0 {
      WithoutFirstAt(s[1..], i - 1);
      assert s[..i] + s[i + 1..] == [s[0]] + (s[1..][..i - 1] + s[1..][i..]);
    }
  }

  function Occurrences(s: seq<string>, n: string): nat {
    if s == [] then 0 else (if s[0] == n then 1 else 0) + Occurrences(s[1..], n)
  }

  lemma {:induction false} OccursWhenCounted(s: seq<string>, n: string)
    ensures n in s <==> Occurrences(s, n) > 0
  {
    if s != [] {
      OccursWhenCounted(s[1..], n);
      assert s == [s[0]] + s[1..];
    }
  }

  lemma {:induction false} WithoutFirstCounts(s: seq<string>, n: string, m: string)
    requires n in s
    ensures Occurrences(WithoutFirst(s, n), m) == Occurrences(s, m) - if m == n then 1 else 0
  {
    if s[0] != n {
      assert s == [s[0]] + s[1..];
      WithoutFirstCounts(s[1..], n, m);
      assert ([s[0]] + WithoutFirst(s[1..], n))[1..] == WithoutFirst(s[1..], n);
    }
  }

  /**
    Whatever the configuration file holds, a deleted finger is gone from list and map exactly
    when the list had it once, or neither had it; no other finger is touched.
   */
  lemma DeletedExactly(x: Index, std: string)
    ensures var y := DeleteOnce(x, std);
            && (std !in y.names && std !in y.fingers
                <==> Occurrences(x.names, std) == 1 || (std !in x.names && std !in x.fingers))
            && forall n | n != std ::
                 && Occurrences(y.names, n) == Occurrences(x.names, n)
                 && (n in y.fingers <==> n in x.fingers) && (n in x.fingers ==> y.fingers[n] == x.fingers[n])
  {
    var y := DeleteOnce(x, std);
    OccursWhenCounted(x.names, std);
    OccursWhenCounted(y.names, std);
    if std in x.names {
      forall n {
        WithoutFirstCounts(x.names, std, n);
      }
    }
  }

  lemma DeleteOnceAt(x: Index, i: nat)
    requires i < |x.names| && forall j | 0 <= j < i :: x.names[j] != x.names[i]
    ensures DeleteOnce(x, x.names[i]) == Index(x.names[..i] + x.names[i + 1..], x.fingers - {x.names[i]})
  {
    WithoutFirstAt(x.names, i);
  }

  lemma DeleteWhenAgreed(x: Index, std: string)
    requires Agrees(x)
    ensures DeleteOnce(x, std) == DeleteName(x, std) && Agrees(DeleteName(x, std))
  {
    OperationsKeepAgreement(x, std, "");
    if i: nat :| i < |x.names| && x.names[i] == std {
      WithoutShifts(x.names, i);
      DeleteOnceAt(x, i);
    } else {
      WithoutIs(x.names, std);
      assert x.fingers - {std} == x.fingers;
    }
  }

  // ---------- the configuration as it is ----------

  /** Saving to the file is left out; a failed save is only logged or returned. */
  class FingerNameConfig {
    /** The backing array of the slice StdNames, of which the first count places are in use. */
    var stdNames: array<string>
    var count: nat
    var fingerMap: map<string, string>

    ghost predicate Valid()
      reads this, stdNames
    {
      count <= stdNames.Length && Agrees(View())
    }

    ghost function View(): Index
      reads this, stdNames
      requires count <= stdNames.Length
    {
      Index(stdNames[..count], fingerMap)
    }

    constructor ()
      ensures Valid() && View() == Index([], map[]) && fresh(stdNames)
    {
      stdNames, count, fingerMap := new string[0], 0, map[];
    }

    method Contains(names: seq<string>, n: string) returns (found: bool)
      ensures found <==> n in names
    {
      for i := 0 to |names|
        invariant n !in names[..i]
      {
        if names[i] == n {
          return true;
        }
        assert names[..i + 1] == names[..i] + [names[i]];
      }
      assert names[..|names|] == names;
      return false;
    }

    method IsFingerExists(fingerName: string) returns (found: bool)
      ensures found <==> exists n | n in fingerMap :: fingerMap[n] == fingerName
    {
      var rest := fingerMap.Keys;
      while rest != {}
        invariant rest <= fingerMap.Keys
        invariant forall n | n in fingerMap && n !in rest :: fingerMap[n] != fingerName
      {
        var n :| n in rest;
        if fingerMap[n] == fingerName {
          return true;
        }
        rest := rest - {n};
      }
      return false;
    }

    /** append, which moves to a larger array when the present one is full. */
    method Append(n: string)
      requires count <= stdNames.Length
      modifies this`stdNames, this`count, stdNames
      ensures count <= stdNames.Length && stdNames[..count] == old(stdNames[..count]) + [n]
      ensures stdNames == old(stdNames) || fresh(stdNames)
    {
      var a, full, n0 := stdNames, stdNames, count;
      ghost var contents := full[..n0];
      if n0 == a.Length {
        a := new string[2 * n0 + 1](k => "");
        for k := 0 to n0
          invariant full[..n0] == contents && a[..k] == contents[..k]
        {
          a[k] := full[k];
        }
      }
      a[n0] := n;
      stdNames, count := a, n0 + 1;
    }

    method SetWithoutSave(std: string, fingerName: string)
      requires count <= stdNames.Length
      modifies this, stdNames
      ensures count <= stdNames.Length && View() == SetName(old(View()), std, fingerName)
      ensures old(Valid()) ==> Valid()
      ensures stdNames == old(stdNames) || fresh(stdNames)
    {
      ghost var agreed := Valid();
      if agreed {
        OperationsKeepAgreement(View(), std, fingerName);
      }
      if std !in fingerMap {
        Append(std);
      }
      fingerMap := fingerMap[std := fingerName];
    }

    /** copy(a[i:], a[i+1:n]) followed by blanking the last place. */
    method ShiftLeft(i: nat)
      requires i < count <= stdNames.Length
      modifies stdNames
      ensures stdNames[..count - 1] == old(stdNames[..i] + stdNames[i + 1..count]) && stdNames[count - 1] == ""
    {
      var a, n := stdNames, count;
      for k := i to n - 1
        invariant forall j | 0 <= j < i :: a[j] == old(stdNames[j])
        invariant forall j | i <= j < k :: a[j] == old(stdNames[..])[j + 1]
        invariant forall j | k <= j < n :: a[j] == old(stdNames[j])
      {
        a[k] := a[k + 1];
      }
      a[n - 1] := "";
    }

    method IndexOf(std: string) returns (i: nat)
      requires count <= stdNames.Length
      ensures i <= count && (i < count ==> stdNames[i] == std) && (i == count ==> std !in stdNames[..count])
      ensures forall j | 0 <= j < i :: stdNames[j] != std
    {
      i := 0;
      while i < count && stdNames[i] != std
        invariant i <= count
        invariant forall j | 0 <= j < i :: stdNames[j] != std
      {
        i := i + 1;
      }
    }

    method DeleteAt(i: nat, std: string)
      requires i < count <= stdNames.Length && stdNames[i] == std && forall j | 0 <= j < i :: stdNames[j] != std
      modifies this`count, this`fingerMap, stdNames
      ensures count <= stdNames.Length && View() == DeleteOnce(old(View()), std)
    {
      ghost var x := View();
      DeleteOnceAt(x, i);
      assert x.names[..i] + x.names[i + 1..] == stdNames[..i] + stdNames[i + 1..count];
      ShiftLeft(i);
      count := count - 1;
      fingerMap := fingerMap - {std};
    }

    /** The file the configuration was read from need not have a list and a map that agree. */
    method Delete(std: string)
      requires count <= stdNames.Length
      modifies this`count, this`fingerMap, stdNames
      ensures count <= stdNames.Length && View() == DeleteOnce(old(View()), std)
      ensures old(Valid()) ==> Valid() && View() == DeleteName(old(View()), std)
    {
      ghost var x, agreed := View(), Valid();
      if agreed {
        DeleteWhenAgreed(x, std);
      }
      var i := IndexOf(std);
      if i < count {
        DeleteAt(i, std);
      }
    }

    /**
      Some finger of that name is renamed; the empty standard name is taken for a failure, so
      the call can only fail when there is no finger of that name or the one found has no
      standard name.
     */
    method Rename(origName: string, newName: string) returns (renamed: bool)
      modifies this`fingerMap
      ensures old(Valid()) ==> Valid()
      ensures renamed ==>
                (exists std | std in old(fingerMap) ::
                   std != "" && old(fingerMap)[std] == origName && fingerMap == old(fingerMap)[std := newName])
      ensures !renamed ==>
                (&& fingerMap == old(fingerMap)
                 && forall std | std in fingerMap && fingerMap[std] == origName ::
                      "" in fingerMap && fingerMap[""] == origName)
    {
      var i, rest := "", fingerMap.Keys;
      while rest != {}
        invariant rest <= fingerMap.Keys && i == ""
        invariant forall n | n in fingerMap && n !in rest :: fingerMap[n] != origName
      {
        var n :| n in rest;
        if fingerMap[n] == origName {
          i := n;
          break;
        }
        rest := rest - {n};
      }
      if i == "" {
        return false;
      }
      fingerMap := fingerMap[i := newName];
      return true;
    }

    method Clear()
      modifies this
      ensures Valid() && View() == Index([], map[]) && fresh(stdNames)
    {
      stdNames, count, fingerMap := new string[0], 0, map[];
    }

    /** The names of the fingers that are on the list and reported. */
    method KnownNames(reported: seq<string>) returns (res: seq<string>)
      requires count <= stdNames.Length
      ensures res == Reported(View(), reported)
    {
      ghost var names := stdNames[..count];
      res := [];
      for i := 0 to count
        invariant res == GivenNames(fingerMap, Restrict(names[..i], reported))
      {
        var v := stdNames[i];
        RestrictStep(names, i, reported);
        var known := Contains(reported, v);
        if known {
          GivenNamesStep(fingerMap, Restrict(names[..i], reported), v);
          res := res + [if v in fingerMap then fingerMap[v] else ""];
        }
      }
      assert names[..count] == names;
    }

    /** Every reported finger that is not on the list is added under its standard name. */
    method AddUnknown(reported: seq<string>, found: seq<string>) returns (res: seq<string>)
      requires count <= stdNames.Length
      modifies this, stdNames
      ensures count <= stdNames.Length && (View(), res) == FillIn(old(View()), found, reported)
    {
      ghost var x := View();
      res := found;
      for j := 0 to |reported|
        invariant count <= stdNames.Length && (View(), res) == FillIn(x, found, reported[..j])
        invariant stdNames == old(stdNames) || fresh(stdNames)
      {
        assert reported[..j + 1][..j] == reported[..j];
        var v := reported[j];
        var known := Contains(stdNames[..count], v);
        if !known {
          SetWithoutSave(v, v);
          res := res + [v];
        }
      }
      assert reported[..|reported|] == reported;
    }

    /** The file the configuration was read from need not have a list and a map that agree. */
    method GetFingerNames(reported: seq<string>) returns (res: seq<string>)
      requires count <= stdNames.Length
      modifies this, stdNames
      ensures count <= stdNames.Length && (View(), res) == FingerNamesOf(old(View()), reported)
      ensures old(Valid()) ==>
          Valid() && View() == AddMissing(old(View()), reported) && res == Reported(View(), reported)
    {
      ghost var x, agreed := View(), Valid();
      if agreed {
        FingerNamesWhenAgreed(x, reported);
        AddMissingAgrees(x, reported);
      }
      res := KnownNames(reported);
      if |reported| == |res| {
        return;
      }
      res := AddUnknown(reported, res);
    }
  }
}
