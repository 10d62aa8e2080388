/** What the record list means, on values: the entries in traversal order,
    the first-match lookup of `findStudent`, the unlinking of
    `deleteStudent`, and the invariants that adding, editing and deleting
    keep. The linked list in module Store is proved against these. */
module Registry {
  import opened Util
  import opened Records

  /** The position of the first entry whose NISN is exactly `key`. */
  function Locate(xs: seq<StudentData>, key: string): (r: Option<nat>)
    ensures r.Some? ==> r.value < |xs| && xs[r.value].nisn == key
    ensures r.Some? ==> forall j :: 0 <= j < r.value ==> xs[j].nisn != key
    ensures r.None? ==> forall j :: 0 <= j < |xs| ==> xs[j].nisn != key
  {
    if xs == [] then None
    else if xs[0].nisn == key then Some(0)
    else match Locate(xs[1..], key)
      case None => None
      case Some(i) => Some(i + 1)
  }

  /** The list with its first entry for `key` unlinked. */
  function RemoveFirst(xs: seq<StudentData>, key: string): (r: seq<StudentData>)
    ensures Locate(xs, key).None? ==> r == xs
    ensures Locate(xs, key).Some? ==>
      var k := Locate(xs, key).value; r == xs[..k] + xs[k + 1..]
  {
    if xs == [] then []
    else if xs[0].nisn == key then xs[1..]
    else [xs[0]] + RemoveFirst(xs[1..], key)
  }

  /** Deleting a present key shortens the list by one and takes out exactly
      the entry that was found. */
  lemma RemoveFirstTakesOutFound(xs: seq<StudentData>, key: string)
    requires Locate(xs, key).Some?
    ensures |RemoveFirst(xs, key)| == |xs| - 1
    ensures multiset(RemoveFirst(xs, key)) + multiset{xs[Locate(xs, key).value]} == multiset(xs)
  {
    var k := Locate(xs, key).value;
    assert xs == xs[..k] + [xs[k]] + xs[k + 1..];
  }

  predicate UniqueKeys(xs: seq<StudentData>) {
    forall i, j :: 0 <= i < j < |xs| ==> xs[i].nisn != xs[j].nisn
  }

  predicate AllConsistent(xs: seq<StudentData>) {
    forall i :: 0 <= i < |xs| ==> Consistent(xs[i])
  }

  /** The record `addStudent` links in is what a lookup of its NISN finds
      next, and it keeps the NISNs unique when the key was new. */
  lemma AddThenFind(xs: seq<StudentData>, input: StudentData)
    requires Locate(xs, input.nisn).None?
    ensures Locate([NewEntry(input)] + xs, input.nisn) == Some(0)
    ensures UniqueKeys(xs) ==> UniqueKeys([NewEntry(input)] + xs)
    ensures AllConsistent(xs) ==> AllConsistent([NewEntry(input)] + xs)
  {
    var ys := [NewEntry(input)] + xs;
    if UniqueKeys(xs) {
      forall i, j | 0 <= i < j < |ys|
        ensures ys[i].nisn != ys[j].nisn
      {
        if i == 0 {
          assert ys[j] == xs[j - 1];
        } else {
          assert ys[i] == xs[i - 1] && ys[j] == xs[j - 1];
        }
      }
    }
  }

  /** Entry `j` of the shortened list is the old entry `j`, or `j + 1` from
      the removed position on. */
  lemma RemoveFirstAt(xs: seq<StudentData>, key: string, j: nat)
    requires Locate(xs, key).Some?
    requires j < |xs| - 1
    ensures var k := Locate(xs, key).value;
            RemoveFirst(xs, key)[j] == xs[if j < k then j else j + 1]
  {
    var k := Locate(xs, key).value;
    var ys := RemoveFirst(xs, key);
    assert ys == xs[..k] + xs[k + 1..];
    if j < k {
      assert ys[j] == xs[..k][j];
    } else {
      assert ys[j] == xs[k + 1..][j - k];
    }
  }

  /** With unique NISNs, a deleted key is no longer found. */
  lemma DeleteThenFindFails(xs: seq<StudentData>, key: string)
    requires UniqueKeys(xs)
    requires Locate(xs, key).Some?
    ensures Locate(RemoveFirst(xs, key), key).None?
  {
    var k := Locate(xs, key).value;
    var ys := RemoveFirst(xs, key);
    assert |ys| == |xs| - 1;
    forall j | 0 <= j < |ys|
      ensures ys[j].nisn != key
    {
      RemoveFirstAt(xs, key, j);
    }
  }

  /** Deleting keeps the remaining NISNs unique. */
  lemma DeleteKeepsUniqueKeys(xs: seq<StudentData>, key: string)
    requires UniqueKeys(xs)
    requires Locate(xs, key).Some?
    ensures UniqueKeys(RemoveFirst(xs, key))
  {
    var k := Locate(xs, key).value;
    var ys := RemoveFirst(xs, key);
    assert |ys| == |xs| - 1;
    forall i, j | 0 <= i < j < |ys|
      ensures ys[i].nisn != ys[j].nisn
    {
      RemoveFirstAt(xs, key, i);
      RemoveFirstAt(xs, key, j);
    }
  }

  /** An edit never changes a NISN, so it keeps them unique. */
  lemma EditKeepsUniqueKeys(xs: seq<StudentData>, k: nat, e: Edit)
    requires UniqueKeys(xs)
    requires k < |xs|
    ensures UniqueKeys(xs[k := ApplyEdit(xs[k], e)])
  {
    var ys := xs[k := ApplyEdit(xs[k], e)];
    forall i, j | 0 <= i < j < |ys|
      ensures ys[i].nisn != ys[j].nisn
    {
      assert ys[i].nisn == xs[i].nisn && ys[j].nisn == xs[j].nisn;
    }
  }

  /** An edit keeps every contact consistent, except the phone edit on a
      nameless contact answered with the name "-". */
  lemma EditKeepsAllConsistent(xs: seq<StudentData>, k: nat, e: Edit)
    requires AllConsistent(xs)
    requires k < |xs|
    requires !BreaksContact(xs[k], e)
    ensures AllConsistent(xs[k := ApplyEdit(xs[k], e)])
  {
    EditKeepsConsistency(xs[k], e);
  }

  /** Deleting keeps every remaining contact consistent. */
  lemma DeleteKeepsAllConsistent(xs: seq<StudentData>, key: string)
    requires AllConsistent(xs)
    requires Locate(xs, key).Some?
    ensures AllConsistent(RemoveFirst(xs, key))
  {
    var ys := RemoveFirst(xs, key);
    forall j | 0 <= j < |ys|
      ensures Consistent(ys[j])
    {
      RemoveFirstAt(xs, key, j);
    }
  }

  /** The list after `editStudent`: nothing changes when the NISN is not
      found or the choice cancels; otherwise the first entry with that NISN
      is edited in place or unlinked. */
  function Edited(xs: seq<StudentData>, key: string, c: MenuChoice): (r: seq<StudentData>)
    ensures Locate(xs, key).None? || c.Cancel? ==> r == xs
    ensures c.Change? ==> |r| == |xs| && Locate(r, key) == Locate(xs, key)
    ensures c.Change? ==> forall j :: 0 <= j < |xs| && Some(j) != Locate(xs, key) ==> r[j] == xs[j]
    ensures c.Remove? && Locate(xs, key).Some? ==> |r| == |xs| - 1
  {
    match Locate(xs, key)
    case None => xs
    case Some(k) =>
      match c
      case Change(e) =>
        var r := xs[k := ApplyEdit(xs[k], e)];
        assert r[k].nisn == key;
        assert forall j :: 0 <= j < k ==> r[j] == xs[j];
        r
      case Remove => RemoveFirstTakesOutFound(xs, key); RemoveFirst(xs, key)
      case Cancel => xs
  }

  /** Every answer to the edit menu keeps the NISNs unique. */
  lemma EditedKeepsUniqueKeys(xs: seq<StudentData>, key: string, c: MenuChoice)
    requires UniqueKeys(xs)
    ensures UniqueKeys(Edited(xs, key, c))
  {
    match Locate(xs, key)
    case None =>
    case Some(k) =>
      match c
      case Change(e) => EditKeepsUniqueKeys(xs, k, e);
      case Remove => DeleteKeepsUniqueKeys(xs, key);
      case Cancel =>
  }

  /** Every answer keeps every contact consistent, except the phone edit on
      a nameless contact answered with the name "-". */
  lemma EditedKeepsAllConsistent(xs: seq<StudentData>, key: string, c: MenuChoice)
    requires AllConsistent(xs)
    requires Locate(xs, key).Some? && c.Change? ==> !BreaksContact(xs[Locate(xs, key).value], c.edit)
    ensures AllConsistent(Edited(xs, key, c))
  {
    match Locate(xs, key)
    case None =>
    case Some(k) =>
      match c
      case Change(e) => EditKeepsAllConsistent(xs, k, e);
      case Remove => DeleteKeepsAllConsistent(xs, key);
      case Cancel =>
  }

  /** Deleting by the first entry's own NISN unlinks the first entry: each
      step of `clearStudents`. */
  lemma DeleteHeadByOwnKey(xs: seq<StudentData>)
    requires xs != []
    ensures Locate(xs, xs[0].nisn) == Some(0)
    ensures RemoveFirst(xs, xs[0].nisn) == xs[1..]
  {
  }
}
