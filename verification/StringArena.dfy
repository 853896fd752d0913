/** The string buffers inside the structures of gmetad (addstring and getfield of gmetad/gmetad.c), and
    what becomes of them when a structure is trimmed, stored in a hash table and copied back. */
module StringArena {
  import opened Base
  import opened Chains
  import opened CStrings
  import opened Words

  const FRAMESIZE: nat := 1572
  const UNSPECIFIED: Str := [117, 110, 115, 112, 101, 99, 105, 102, 105, 101, 100]

  datatype Arena = Arena(strings: Bytes, edge: nat)

  predicate IsArena(a: Arena) {
    |a.strings| == FRAMESIZE && a.edge <= FRAMESIZE
  }

  /** The string s with its terminator lies at offset o of the buffer. */
  predicate Holds(buf: Bytes, o: nat, s: Str) {
    o + |s| < |buf| && buf[o..o + |s|] == s && buf[o + |s|] == 0
  }

  predicate Fits(a: Arena, s: Str) {
    a.edge + |s| + 1 <= FRAMESIZE
  }

  /** The buffer with s and its terminator written behind the edge, if they fit. */
  function Added(a: Arena, s: Str): (a': Arena)
    requires IsArena(a)
    ensures IsArena(a') && a.edge <= a'.edge && a'.strings[..a.edge] == a.strings[..a.edge]
    ensures Fits(a, s) ==> Holds(a'.strings[..a'.edge], a.edge, s)
  {
    if !Fits(a, s) then a
    else Arena(a.strings[..a.edge] + s + [0] + a.strings[a.edge + |s| + 1..], a.edge + |s| + 1)
  }

  function Offset(a: Arena, s: Str): int {
    if Fits(a, s) then a.edge else -1
  }

  /** getfield, read up to the terminator. */
  function Field(strings: Bytes, index: int): Str
    requires index <= |strings|
  {
    if index < 0 then UNSPECIFIED else CString(strings[index..])
  }

  /** Writing one byte more of s behind e, or the terminator behind all of it. */
  lemma Written(was: Str, e: nat, s: Str, i: nat)
    requires e + |s| < |was| && i <= |s|
    ensures i == 0 ==> was[..e] + s[..i] + was[e + i..] == was
    ensures var buf := was[..e] + s[..i] + was[e + i..];
      if i < |s| then buf[e + i := s[i]] == was[..e] + s[..i + 1] + was[e + i + 1..]
      else buf[e + i := 0] == was[..e] + s + [0] + was[e + i + 1..]
  {
    assert i < |s| ==> s[..i + 1] == s[..i] + [s[i]];
    assert i == |s| ==> s[..i] == s;
  }

  class Strings {
    const strings: array<byte>
    var edge: nat

    ghost predicate Valid()
      reads this
    {
      strings.Length == FRAMESIZE && edge <= FRAMESIZE
    }

    ghost function Abs(): Arena
      reads this, strings
    {
      Arena(strings[..], edge)
    }

    constructor ()
      ensures Valid() && edge == 0 && fresh(strings)
    {
      strings := new byte[FRAMESIZE](_ => 0);
      edge := 0;
    }

    /** addstring */
    method AddString(s: Str) returns (offset: int)
      requires strings.Length == FRAMESIZE && 0 !in s
      modifies this, strings
      ensures old(edge) <= FRAMESIZE ==>
        Valid() && Abs() == Added(old(Abs()), s) && offset == Offset(old(Abs()), s)
      ensures old(edge) > FRAMESIZE ==> Abs() == old(Abs()) && offset == -1
    {
      var e := edge;
      var end := e + |s| + 1;
      if e > FRAMESIZE || end > FRAMESIZE {
        return -1;
      }
      ghost var was := strings[..];
      Written(was, e, s, 0);
      for i := 0 to |s|
        invariant strings[..] == was[..e] + s[..i] + was[e + i..]
        invariant edge == e
      {
        Written(was, e, s, i);
        strings[e + i] := s[i];
      }
      Written(was, e, s, |s|);
      strings[end - 1] := 0;
      edge := end;
      return e;
    }

    /** getfield, with the walk of its reader to the terminator. */
    method GetField(index: int) returns (s: Str)
      requires Valid() && index <= FRAMESIZE
      ensures s == Field(strings[..], index)
    {
      if index < 0 {
        return UNSPECIFIED;
      }
      s := [];
      var i: nat := index;
      while i < strings.Length && strings[i] != 0
        invariant index <= i <= strings.Length
        invariant CString(strings[..][index..]) == s + CString(strings[..][i..])
      {
        assert strings[..][i..][1..] == strings[..][i + 1..];
        s := s + [strings[i]];
        i := i + 1;
      }
      assert CString(strings[..][i..]) == [];
    }
  }

  // ---- A run of addstring ----

  function AddedAll(a: Arena, ss: seq<Str>): (a': Arena)
    requires IsArena(a)
    ensures IsArena(a')
    decreases ss
  {
    if ss == [] then a else AddedAll(Added(a, ss[0]), ss[1..])
  }

  function Offsets(a: Arena, ss: seq<Str>): (os: seq<int>)
    requires IsArena(a)
    ensures |os| == |ss|
    decreases ss
  {
    if ss == [] then [] else [Offset(a, ss[0])] + Offsets(Added(a, ss[0]), ss[1..])
  }

  lemma HoldsReads(buf: Bytes, o: nat, s: Str)
    requires Holds(buf, o, s) && 0 !in s
    ensures Field(buf, o) == s
  {
    assert buf[o..] == s + buf[o + |s|..];
    CStringOf(s, buf[o + |s|..]);
  }

  /** Nothing behind the edge moves what lies in front of it. */
  lemma {:induction false} LaterKeepsEarlier(a: Arena, ss: seq<Str>)
    requires IsArena(a)
    ensures a.edge <= AddedAll(a, ss).edge && AddedAll(a, ss).strings[..a.edge] == a.strings[..a.edge]
    decreases ss
  {
    if ss != [] {
      var a1 := Added(a, ss[0]);
      LaterKeepsEarlier(a1, ss[1..]);
      assert AddedAll(a, ss).strings[..a1.edge][..a.edge] == AddedAll(a, ss).strings[..a.edge];
      assert a1.strings[..a1.edge][..a.edge] == a1.strings[..a.edge];
    }
  }

  lemma HoldsKept(buf: Bytes, buf': Bytes, o: nat, s: Str)
    requires Holds(buf, o, s) && |buf| <= |buf'| && buf'[..|buf|] == buf
    ensures Holds(buf', o, s)
  {
    assert buf'[o..o + |s|] == buf'[..|buf|][o..o + |s|];
    assert buf'[o + |s|] == buf'[..|buf|][o + |s|];
  }

  /** After any run of addstring, from any state of the buffer, every returned offset still reads back its
      own string, inside the used part; what did not fit reads as "unspecified". */
  lemma {:induction false} EveryOffsetReadsBack(a: Arena, ss: seq<Str>, k: nat)
    requires IsArena(a) && k < |ss| && forall s <- ss :: 0 !in s
    ensures var a', o := AddedAll(a, ss), Offsets(a, ss)[k];
      o <= FRAMESIZE && a'.edge <= FRAMESIZE &&
      (o >= 0 ==> a.edge <= o && Holds(a'.strings[..a'.edge], o, ss[k])) &&
      Field(a'.strings, o) == if o >= 0 then ss[k] else UNSPECIFIED
    ensures Offsets(a, ss)[k] == Offset(AddedAll(a, ss[..k]), ss[k])
    decreases ss
  {
    var a1, a', o := Added(a, ss[0]), AddedAll(a, ss), Offsets(a, ss)[k];
    if k == 0 {
      LaterKeepsEarlier(a1, ss[1..]);
      if o >= 0 {
        assert a'.strings[..a'.edge][..a1.edge] == a'.strings[..a1.edge] == a1.strings[..a1.edge];
        HoldsKept(a1.strings[..a1.edge], a'.strings[..a'.edge], o, ss[0]);
      }
    } else {
      EveryOffsetReadsBack(a1, ss[1..], k - 1);
      assert ss[..k][1..] == ss[1..][..k - 1];
    }
    if o >= 0 {
      HoldsKept(a'.strings[..a'.edge], a'.strings, o, ss[k]);
      HoldsReads(a'.strings, o, ss[k]);
    }
  }

  /** A string is stored exactly if it and its terminator fit into the 1572 bytes, and takes up just that. */
  lemma StoredExactly(a: Arena, ss: seq<Str>, k: nat)
    requires IsArena(a) && k < |ss|
    ensures var used := AddedAll(a, ss[..k]).edge;
      (Offsets(a, ss)[k] >= 0 <==> used + |ss[k]| < 1572) &&
      AddedAll(a, ss[..k + 1]).edge == (if used + |ss[k]| < 1572 then used + |ss[k]| + 1 else used)
    decreases ss
  {
    var a1 := Added(a, ss[0]);
    if k == 0 {
      assert ss[..1][1..] == [] && ss[..0] == [];
    } else {
      StoredExactly(a1, ss[1..], k - 1);
      assert ss[..k][1..] == ss[1..][..k - 1] && ss[..k + 1][1..] == ss[1..][..k];
    }
  }

  lemma UnspecifiedName()
    ensures UNSPECIFIED == Ascii("unspecified")
  {
  }

  // ---- Trimming, storing and copying back ----

  /** A structure: fields of fixed size, the string buffer, and the padding a compiler may put behind. */
  datatype Struct = Struct(head: Bytes, arena: Arena, padding: Bytes)

  function Image(x: Struct): Bytes {
    x.head + x.arena.strings + x.padding
  }

  /** The bytes that are stored: sizeof minus the buffer plus its used length. */
  function Trimmed(x: Struct): (b: Bytes)
    requires IsArena(x.arena)
    ensures |b| == |Image(x)| - FRAMESIZE + x.arena.edge
  {
    Image(x)[..|x.head| + |x.padding| + x.arena.edge]
  }

  /** The fixed fields and the used part of the buffer of x are in front of b. */
  predicate CarriesStruct(b: Bytes, x: Struct)
    requires IsArena(x.arena)
  {
    |x.head| + x.arena.edge <= |b| && b[..|x.head| + x.arena.edge] == x.head + x.arena.strings[..x.arena.edge]
  }

  lemma TrimmedCarries(x: Struct)
    requires IsArena(x.arena)
    ensures CarriesStruct(Trimmed(x), x)
  {
  }

  lemma OverlayCarries(old_: Bytes, b: Bytes, x: Struct)
    requires IsArena(x.arena) && CarriesStruct(b, x)
    ensures CarriesStruct(Overlay(old_, b), x)
  {
    assert Overlay(old_, b)[..|b|] == b;
    assert Overlay(old_, b)[..|b|][..|x.head| + x.arena.edge] == Overlay(old_, b)[..|x.head| + x.arena.edge];
  }

  /** Wherever x is carried, its strings can be read behind its fixed fields. */
  lemma CarriedFieldReads(b: Bytes, x: Struct, o: nat, s: Str)
    requires IsArena(x.arena) && CarriesStruct(b, x) && Holds(x.arena.strings[..x.arena.edge], o, s) && 0 !in s
    ensures b[..|x.head|] == x.head && Field(b[|x.head|..], o) == s
  {
    var h, used := |x.head|, x.arena.strings[..x.arena.edge];
    assert b[..h] == b[..h + x.arena.edge][..h];
    assert b[h..][..|used|] == b[..h + x.arena.edge][h..] == used;
    HoldsKept(used, b[h..], o, s);
    HoldsReads(b[h..], o, s);
  }

  /** Stored under any key, over whatever the table had there, looked up, and copied into any structure
      image, x has kept its fixed fields and every string of its buffer. */
  lemma StoredAndCopiedBack(t: Table<Bytes>, m: map<CKey, Bytes>, key: CKey, x: Struct, image: Bytes, o: nat, s: Str)
    requires WellPlaced(t) && Represents(t, m)
    requires IsArena(x.arena) && Holds(x.arena.strings[..x.arena.edge], o, s) && 0 !in s
    ensures Bucket(t, key) < |t|
    ensures var found := Find(Inserted(t[Bucket(t, key)], key, Trimmed(x)), key);
      found.Some? &&
      var copied := Overlay(image, found.value);
      |x.head| + o <= |copied| && copied[..|x.head|] == x.head && Field(copied[|x.head|..], o) == s
  {
    InsertRefinesMap(t, m, key, Trimmed(x));
    var old_ := if key in m then m[key] else [];
    var t' := t[Bucket(t, key) := Inserted(t[Bucket(t, key)], key, Trimmed(x))];
    assert Lookup(t', key) == Some(Overlay(old_, Trimmed(x)));
    TrimmedCarries(x);
    OverlayCarries(old_, Trimmed(x), x);
    OverlayCarries(image, Overlay(old_, Trimmed(x)), x);
    CarriedFieldReads(Overlay(image, Overlay(old_, Trimmed(x))), x, o, s);
  }
}
