/**
 The label table: a partial map from label names to instruction addresses.
 Adding a name that is already present overwrites its address (the table has
 no duplicate check).
 */
module LabelTable {
  import opened Wrappers
  import opened JavaInt

  /** What the table's operations can fail with. Java reports both as a
      `NullPointerException`. */
  datatype LabelError =
    | NullLabel                       // `addLabel` was given a null name
    | NoSuchLabel(name: Option<string>) // `getAddress` found no address to unbox

  /** Name-to-address table; addresses are Java `int`s. */
  type Labels = map<string, Int32>

  /** A fresh table holds no labels. */
  function Empty(): (t: Labels)
    ensures forall name :: GetAddress(t, name).Failure?
  {
    map[]
  }

  /** `getAddress(label)`: defined exactly for names that have been added; a
      null or absent name fails. */
  function GetAddress(t: Labels, name: Option<string>): (r: Result<Int32, LabelError>)
    ensures r.Success? <==> name.Some? && name.value in t
    ensures r.Success? ==> r.value == t[name.value]
    ensures r.Failure? ==> r.error == NoSuchLabel(name)
  {
    match name
    case None => Failure(NoSuchLabel(name))
    case Some(n) => if n in t then Success(t[n]) else Failure(NoSuchLabel(name))
  }

  /** `addLabel(label, address)`: rejects a null name; otherwise the name reads
      `address` afterwards, whether or not it was present, and no other
      name's lookup changes. */
  function AddLabel(t: Labels, name: Option<string>, address: Int32): (r: Result<Labels, LabelError>)
    ensures r.Failure? <==> name.None?
    ensures r.Failure? ==> r.error == NullLabel
    ensures r.Success? ==> GetAddress(r.value, name) == Success(address)
    ensures r.Success? ==> forall other :: other != name ==> GetAddress(r.value, other) == GetAddress(t, other)
  {
    match name
    case None => Failure(NullLabel)
    case Some(n) => Success(t[n := address])
  }

  /** `reset()`: afterwards no name has an address. */
  function Reset(t: Labels): (r: Labels)
    ensures forall name :: GetAddress(r, name).Failure?
  {
    map[]
  }

  /** `equals`: holds exactly when both tables give every name the same lookup result. */
  function Equal(a: Labels, b: Labels): (eq: bool)
    ensures eq <==> forall name :: GetAddress(a, name) == GetAddress(b, name)
  {
    if a == b then true
    else
      NotEqualDiffers(a, b);
      false
  }

  lemma {:induction false} NotEqualDiffers(a: Labels, b: Labels)
    requires a != b
    ensures exists name :: GetAddress(a, name) != GetAddress(b, name)
  {
    if n :| n in a && n !in b {
      assert GetAddress(a, Some(n)) != GetAddress(b, Some(n));
    } else if n :| n in b && n !in a {
      assert GetAddress(a, Some(n)) != GetAddress(b, Some(n));
    } else {
      assert a.Keys == b.Keys;
      var n :| n in a && a[n] != b[n];
      assert GetAddress(a, Some(n)) != GetAddress(b, Some(n));
    }
  }

  /** Adding a name twice keeps only the second address. */
  lemma {:induction false} AddLabelOverwrites(t: Labels, name: string, first: Int32, second: Int32)
    ensures AddLabel(t, Some(name), first).Success?
    ensures AddLabel(AddLabel(t, Some(name), first).value, Some(name), second)
         == AddLabel(t, Some(name), second)
  {
    assert t[name := first][name := second] == t[name := second];
  }

  /** Adding two different names gives the same table in either order. */
  lemma {:induction false} AddLabelCommutes(t: Labels, n1: string, a1: Int32, n2: string, a2: Int32)
    requires n1 != n2
    ensures AddLabel(AddLabel(t, Some(n1), a1).value, Some(n2), a2)
         == AddLabel(AddLabel(t, Some(n2), a2).value, Some(n1), a1)
  {
    assert t[n1 := a1][n2 := a2] == t[n2 := a2][n1 := a1];
  }
}
