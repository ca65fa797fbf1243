/**
 The register store of the machine: a total map from the eight register names
 to Java `int` values, with clearing, reading, writing, equality and the
 deterministic text rendering.
 */
module RegisterStore {
  import opened Wrappers
  import opened JavaInt

  /** The register names, in declaration order. */
  datatype Register = EAX | EBX | ECX | EDX | ESP | EBP | ESI | EDI

  /** `Register.values()`: every register, in declaration order. */
  const AllRegisters: seq<Register> := [EAX, EBX, ECX, EDX, ESP, EBP, ESI, EDI]

  /** The position of a register in the declaration, which is the order its
      `compareTo` uses. */
  function Ordinal(r: Register): (k: nat)
    ensures k < |AllRegisters| && AllRegisters[k] == r
  {
    match r
    case EAX => 0
    case EBX => 1
    case ECX => 2
    case EDX => 3
    case ESP => 4
    case EBP => 5
    case ESI => 6
    case EDI => 7
  }

  /** The enum constant's name, as its `toString` gives it. */
  function Name(r: Register): (s: string)
    ensures |s| == 3
    ensures ',' !in s
  {
    match r
    case EAX => "EAX"
    case EBX => "EBX"
    case ECX => "ECX"
    case EDX => "EDX"
    case ESP => "ESP"
    case EBP => "EBP"
    case ESI => "ESI"
    case EDI => "EDI"
  }

  /** The register a name denotes, if any. */
  function ParseName(s: string): (r: Option<Register>)
    ensures r.Some? ==> Name(r.value) == s
  {
    if s == "EAX" then Some(EAX)
    else if s == "EBX" then Some(EBX)
    else if s == "ECX" then Some(ECX)
    else if s == "EDX" then Some(EDX)
    else if s == "ESP" then Some(ESP)
    else if s == "EBP" then Some(EBP)
    else if s == "ESI" then Some(ESI)
    else if s == "EDI" then Some(EDI)
    else None
  }

  lemma NameRoundTrip(r: Register)
    ensures ParseName(Name(r)) == Some(r)
  {
  }

  /** `Register.values()` lists each register exactly once, in ordinal order. */
  lemma AllRegistersEnumerates(r: Register)
    ensures r in AllRegisters
    ensures forall i :: 0 <= i < |AllRegisters| && AllRegisters[i] == r ==> i == Ordinal(r)
  {
  }

  ghost predicate SortedByOrdinal(s: seq<Register>) {
    forall i, j :: 0 <= i < j < |s| ==> Ordinal(s[i]) < Ordinal(s[j])
  }

  /** Sorting the registers by key (ordinal) gives exactly the declaration
      order: it is the only strictly ordered listing of all eight. */
  lemma {:induction false} SortedListingIsDeclarationOrder(s: seq<Register>)
    requires SortedByOrdinal(s)
    requires forall r: Register :: r in s
    ensures s == AllRegisters
  {
    forall i | 0 <= i < |s|
      ensures Ordinal(s[i]) == i
    {
      OrdinalAtIndex(s, i);
    }
    assert EDI in s;
    var j :| 0 <= j < |s| && s[j] == EDI;
    assert Ordinal(s[|s| - 1]) == |s| - 1;
    assert j == 7;
    assert |s| == 8;
  }

  lemma {:induction false} OrdinalAtIndex(s: seq<Register>, i: nat)
    requires SortedByOrdinal(s)
    requires forall r: Register :: r in s
    requires i < |s|
    ensures Ordinal(s[i]) == i
    decreases i
  {
    var o := Ordinal(s[i]);
    if o < i {
      OrdinalAtIndex(s, o);
    } else {
      var r := AllRegisters[i];
      assert r in s;
      var j :| 0 <= j < |s| && s[j] == r;
      if j < i {
        OrdinalAtIndex(s, j);
      } else {
        assert Ordinal(s[i]) <= Ordinal(s[j]) == i;
      }
    }
  }

  /** Every register. */
  const RegisterSet: set<Register> := {EAX, EBX, ECX, EDX, ESP, EBP, ESI, EDI}

  /** The register store invariant: every register has a value. */
  ghost predicate Total(m: map<Register, Int32>) {
    RegisterSet <= m.Keys
  }

  lemma InRegisterSet(x: Register)
    ensures x in RegisterSet
  {
    match x
    case EAX =>
    case EBX =>
    case ECX =>
    case EDX =>
    case ESP =>
    case EBP =>
    case ESI =>
    case EDI =>
  }

  lemma TotalCovers(m: map<Register, Int32>)
    requires Total(m)
    ensures forall x: Register :: x in m
  {
    forall x: Register ensures x in m {
      InRegisterSet(x);
    }
  }

  /** A register store; `get` is total because every register is a key. */
  type Registers = m: map<Register, Int32> | Total(m)
    witness map[EAX := 0, EBX := 0, ECX := 0, EDX := 0, ESP := 0, EBP := 0, ESI := 0, EDI := 0]

  /** The loop of `clear`: writes 0 into each listed register, in order. */
  function PutZeroes(m: map<Register, Int32>, rs: seq<Register>): (r: map<Register, Int32>)
    ensures r.Keys == m.Keys + set x | x in rs
    ensures forall x :: x in rs ==> r[x] == 0
    ensures forall x :: x in m && x !in rs ==> r[x] == m[x]
    decreases |rs|
  {
    if |rs| == 0 then m else PutZeroes(m[rs[0] := 0], rs[1..])
  }

  /** `clear()`: every register reads 0 afterwards. */
  function Clear(m: map<Register, Int32>): (r: Registers)
    ensures forall x: Register :: Get(r, x) == 0
  {
    AllRegistersCovers();
    PutZeroes(m, AllRegisters)
  }

  lemma AllRegistersCovers()
    ensures forall x: Register :: x in AllRegisters
  {
    forall x: Register ensures x in AllRegisters {
      AllRegistersEnumerates(x);
    }
  }

  /** The constructor: a fresh store, cleared. */
  function New(): (r: Registers)
    ensures forall x: Register :: Get(r, x) == 0
  {
    Clear(map[])
  }

  /** `get(register)`. */
  function Get(regs: Registers, r: Register): (v: Int32)
    ensures r in regs && v == regs[r]
  {
    InRegisterSet(r);
    regs[r]
  }

  /** `set(register, value)`: `r` reads `v` afterwards; no other register changes. */
  function Set(regs: Registers, r: Register, v: Int32): (res: Registers)
    ensures Get(res, r) == v
    ensures forall x :: x != r ==> Get(res, x) == Get(regs, x)
  {
    regs[r := v]
  }

  /** Two stores agree on every register exactly when they are the same store. */
  lemma {:induction false} Extensionality(a: Registers, b: Registers)
    requires forall x: Register :: Get(a, x) == Get(b, x)
    ensures a == b
  {
    TotalCovers(a);
    TotalCovers(b);
    assert a.Keys == b.Keys;
    forall x | x in a ensures a[x] == b[x] {
      assert Get(a, x) == Get(b, x);
    }
  }

  /** `equals`: map equality, which holds iff every register holds the same value. */
  function Equal(a: Registers, b: Registers): (eq: bool)
    ensures eq <==> forall x: Register :: Get(a, x) == Get(b, x)
  {
    if a == b then true
    else
      NotEqualDiffers(a, b);
      false
  }

  lemma NotEqualDiffers(a: Registers, b: Registers)
    requires a != b
    ensures exists x: Register :: Get(a, x) != Get(b, x)
  {
    if forall x: Register :: Get(a, x) == Get(b, x) {
      Extensionality(a, b);
    }
  }

  /** Clearing forgets the previous contents, so clearing twice is clearing once. */
  lemma {:induction false} ClearIdempotent(regs: Registers)
    ensures Clear(Clear(regs)) == Clear(regs)
    ensures Clear(regs) == New()
  {
    Extensionality(Clear(Clear(regs)), Clear(regs));
    Extensionality(Clear(regs), New());
  }

  /** Writing the value a register already holds changes nothing. */
  lemma {:induction false} SetCurrentValue(regs: Registers, r: Register)
    ensures Set(regs, r, Get(regs, r)) == regs
  {
    Extensionality(Set(regs, r, Get(regs, r)), regs);
  }

  /** Writes to different registers can be done in either order; two writes
      to the same register leave the last value. */
  lemma {:induction false} SetCommutes(regs: Registers, r: Register, v: Int32, s: Register, w: Int32)
    ensures r != s ==> Set(Set(regs, r, v), s, w) == Set(Set(regs, s, w), r, v)
    ensures r == s ==> Set(Set(regs, r, v), s, w) == Set(regs, s, w)
  {
    if r != s {
      Extensionality(Set(Set(regs, r, v), s, w), Set(Set(regs, s, w), r, v));
    } else {
      Extensionality(Set(Set(regs, r, v), s, w), Set(regs, s, w));
    }
  }

  // ---------------------------------------------------------------------------
  // Rendering

  /** The summed lengths of the items. */
  function TotalLength(items: seq<string>): nat
    decreases |items|
  {
    if |items| == 0 then 0 else |items[0]| + TotalLength(items[1..])
  }

  /** Java's `Collectors.joining(sep)`: the items with `sep` between neighbours.
      The result holds every item once and one separator per gap. */
  function Join(items: seq<string>, sep: string): (r: string)
    ensures |items| > 0 ==> |r| == TotalLength(items) + (|items| - 1) * |sep|
    ensures |items| == 0 ==> r == ""
    ensures |items| > 0 ==> r[..|items[0]|] == items[0]
    decreases |items|
  {
    if |items| == 0 then ""
    else if |items| == 1 then items[0]
    else items[0] + sep + Join(items[1..], sep)
  }

  /** One map entry as `"NAME = value"`. */
  function Entry(regs: Registers, r: Register): (s: string)
    ensures ',' !in s
  {
    var e := Name(r) + " = " + Decimal(Get(regs, r));
    assert forall i :: 0 <= i < |e| ==> e[i] != ',' by {
      forall i | 0 <= i < |e| ensures e[i] != ',' {
        if i >= 6 { assert e[i] == Decimal(Get(regs, r))[i - 6]; }
      }
    }
    e
  }

  /** The entries of the store sorted by key: whatever strictly key-sorted
      listing of all registers one takes, the entries follow it one to one. */
  function Entries(regs: Registers): (es: seq<string>)
    ensures forall ks: seq<Register> :: SortedByOrdinal(ks) && (forall r: Register :: r in ks) ==>
              |ks| == |es| && forall i :: 0 <= i < |ks| ==> es[i] == Entry(regs, ks[i])
  {
    assert forall ks: seq<Register> :: SortedByOrdinal(ks) && (forall r: Register :: r in ks) ==> ks == AllRegisters by {
      forall ks: seq<Register> | SortedByOrdinal(ks) && (forall r: Register :: r in ks)
        ensures ks == AllRegisters
      {
        SortedListingIsDeclarationOrder(ks);
      }
    }
    seq(|AllRegisters|, i requires 0 <= i < |AllRegisters| => Entry(regs, AllRegisters[i]))
  }

  /** `toString`: `"[EAX = v, EBX = v, ..., EDI = v]"`, the sorted entries
      joined by `", "` inside brackets. */
  function RenderRegisters(regs: Registers): (s: string)
    ensures |s| >= 2 && s[0] == '[' && s[|s| - 1] == ']'
    ensures s[1..|s| - 1] == Join(Entries(regs), ", ")
  {
    "[" + Join(Entries(regs), ", ") + "]"
  }

  /** Splitting at the first comma: two strings of the form `u + ", " + s`
      with a comma-free `u` agree on both parts. */
  lemma {:induction false} SplitAtComma(u: string, s: string, v: string, t: string)
    requires ',' !in u && ',' !in v
    requires u + ", " + s == v + ", " + t
    ensures u == v && s == t
  {
    var x := u + ", " + s;
    if |u| < |v| {
      CommaInLonger(u, s, v, t);
      assert false;
    } else if |v| < |u| {
      CommaInLonger(v, t, u, s);
      assert false;
    }
    assert u == x[..|u|] == v;
    assert s == x[|u| + 2..] == t;
  }

  lemma CommaInLonger(u: string, s: string, v: string, t: string)
    requires |u| < |v|
    requires u + ", " + s == v + ", " + t
    ensures ',' in v
  {
    assert v[|u|] == (v + ", " + t)[|u|] == (u + ", " + s)[|u|] == ',';
  }

  /** Joining with `", "` loses nothing when the items contain no comma. */
  lemma {:induction false} JoinInjective(xs: seq<string>, ys: seq<string>)
    requires |xs| == |ys|
    requires forall i :: 0 <= i < |xs| ==> ',' !in xs[i] && ',' !in ys[i]
    requires Join(xs, ", ") == Join(ys, ", ")
    ensures xs == ys
    decreases |xs|
  {
    if |xs| > 1 {
      SplitAtComma(xs[0], Join(xs[1..], ", "), ys[0], Join(ys[1..], ", "));
      JoinInjective(xs[1..], ys[1..]);
      assert xs == [xs[0]] + xs[1..];
      assert ys == [ys[0]] + ys[1..];
    }
  }

  /** `Register.values()` is itself a key-sorted listing of all registers,
      so the entries follow declaration order. */
  lemma EntriesInDeclarationOrder(regs: Registers)
    ensures |Entries(regs)| == |AllRegisters|
    ensures forall i :: 0 <= i < |AllRegisters| ==> Entries(regs)[i] == Entry(regs, AllRegisters[i])
  {
    AllRegistersIsSortedListing();
    EntriesFollowListing(regs, AllRegisters);
  }

  /** `Register.values()` is a strictly key-sorted listing of all registers. */
  lemma AllRegistersIsSortedListing()
    ensures SortedByOrdinal(AllRegisters)
    ensures forall r: Register :: r in AllRegisters
  {
    AllRegistersCovers();
    forall i, j | 0 <= i < j < |AllRegisters|
      ensures Ordinal(AllRegisters[i]) < Ordinal(AllRegisters[j])
    {
      AllRegistersEnumerates(AllRegisters[i]);
      AllRegistersEnumerates(AllRegisters[j]);
    }
  }

  /** The contract of `Entries`, for one given sorted listing. */
  lemma EntriesFollowListing(regs: Registers, ks: seq<Register>)
    requires SortedByOrdinal(ks) && forall r: Register :: r in ks
    ensures |ks| == |Entries(regs)|
    ensures forall i :: 0 <= i < |ks| ==> Entries(regs)[i] == Entry(regs, ks[i])
  {
  }

  /** The shape of one entry: the register's name, `" = "`, then the value's
      decimal text. */
  lemma EntryShape(regs: Registers, r: Register)
    ensures |Entry(regs, r)| > 6
    ensures Entry(regs, r)[..6] == Name(r) + " = "
    ensures Entry(regs, r)[6..] == Decimal(Get(regs, r))
  {
  }

  /** Equal renderings have equal entry lists. */
  lemma {:induction false} SameRenderSameEntries(a: Registers, b: Registers)
    ensures RenderRegisters(a) == RenderRegisters(b) ==> Entries(a) == Entries(b)
  {
    if RenderRegisters(a) != RenderRegisters(b) { return; }
    var ra := RenderRegisters(a);
    assert ra[1..|ra| - 1] == Join(Entries(a), ", ") == Join(Entries(b), ", ");
    EntriesInDeclarationOrder(a);
    EntriesInDeclarationOrder(b);
    JoinInjective(Entries(a), Entries(b));
  }

  /** Equal entry lists come from equal stores. */
  lemma {:induction false} SameEntriesSameStore(a: Registers, b: Registers)
    ensures Entries(a) == Entries(b) ==> a == b
  {
    if Entries(a) != Entries(b) { return; }
    EntriesInDeclarationOrder(a);
    EntriesInDeclarationOrder(b);
    forall x: Register ensures Get(a, x) == Get(b, x) {
      assert Entries(a)[Ordinal(x)] == Entries(b)[Ordinal(x)];
      EntryDeterminesValue(a, b, x);
    }
    Extensionality(a, b);
  }

  /** The rendering determines the store: equal renderings come from equal
      stores, so `toString` agrees with `equals` in both directions. */
  lemma {:induction false} RenderInjective(a: Registers, b: Registers)
    ensures RenderRegisters(a) == RenderRegisters(b) <==> Equal(a, b)
  {
    if RenderRegisters(a) == RenderRegisters(b) {
      SameRenderSameEntries(a, b);
      SameEntriesSameStore(a, b);
    } else if Equal(a, b) {
      Extensionality(a, b);
    }
  }

  /** Equal entries for a register mean equal values in it. */
  lemma EntryDeterminesValue(a: Registers, b: Registers, x: Register)
    requires Entry(a, x) == Entry(b, x)
    ensures Get(a, x) == Get(b, x)
  {
    assert Decimal(Get(a, x)) == Entry(a, x)[6..];
    assert Decimal(Get(b, x)) == Entry(b, x)[6..];
    DecimalInjective(Get(a, x), Get(b, x));
  }
}
