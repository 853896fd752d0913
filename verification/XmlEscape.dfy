/** xml_escape of gmond/gmond.c: escape a C string into a buffer of given size. */
module XmlEscape {
  import opened Base
  import opened CStrings
  import opened Words

  const AMP: Str := [38, 97, 109, 112, 59]          // &amp;
  const LT: Str := [38, 108, 116, 59]               // &lt;
  const GT: Str := [38, 103, 116, 59]               // &gt;
  const QUOT: Str := [38, 113, 117, 111, 116, 59]   // &quot;
  const APOS: Str := [38, 97, 112, 111, 115, 59]    // &apos;

  /** The characters escaped by a named entity. */
  predicate IsMarkup(b: byte) {
    b == 38 || b == 60 || b == 62 || b == 34 || b == 39
  }

  function Entity(b: byte): Str
    requires IsMarkup(b)
  {
    if b == 38 then AMP else if b == 60 then LT else if b == 62 then GT else if b == 34 then QUOT else APOS
  }

  /** A char is signed: from 128 on it becomes a huge unsigned number. */
  function Widened(b: byte): nat {
    if b < 128 then b else U32 - (256 - b)
  }

  /** Control characters become a reference of exactly two decimal places, each computed in a char. */
  function Reference(b: byte): Str {
    var ch := Widened(b);
    [38, 35, ((ch / 10) + 48) % 256, ((ch % 10) + 48) % 256, 59]
  }

  function Esc(b: byte): Str {
    if IsMarkup(b) then Entity(b) else if Widened(b) < 32 || Widened(b) > 126 then Reference(b) else [b]
  }

  function EscAll(s: Str): Str {
    if s == [] then [] else Esc(s[0]) + EscAll(s[1..])
  }

  /** How many characters of s are taken, when i of them have made off bytes of text: one more as long as
      the text so far is not longer than cap. */
  function Fit(s: Str, i: nat, off: nat, cap: nat): (k: nat)
    requires i <= |s|
    ensures i <= k <= |s|
    decreases |s| - i
  {
    if i == |s| || off > cap then i else Fit(s, i + 1, off + |Esc(s[i])|, cap)
  }

  function Taken(s: Str, cap: nat): (k: nat)
    ensures k <= |s|
  {
    Fit(s, 0, 0, cap)
  }

  /** Taken is the longest prefix of whole characters in which every character begins at or below cap. */
  predicate IsTaken(s: Str, cap: nat, k: nat) {
    k <= |s| && (forall i | 0 <= i < k :: |EscAll(s[..i])| <= cap) && (k < |s| ==> |EscAll(s[..k])| > cap)
  }

  lemma EscOneMore(s: Str, i: nat)
    requires i < |s|
    ensures EscAll(s[..i + 1]) == EscAll(s[..i]) + Esc(s[i])
  {
    assert s[..i + 1] == s[..i] + [s[i]];
    EscAllAppend(s[..i], [s[i]]);
    assert EscAll([s[i]]) == Esc(s[i]) + EscAll([s[i]][1..]);
  }

  lemma {:induction false} FitExact(s: Str, i: nat, cap: nat)
    requires i <= |s| && forall j | 0 <= j < i :: |EscAll(s[..j])| <= cap
    ensures IsTaken(s, cap, Fit(s, i, |EscAll(s[..i])|, cap))
    decreases |s| - i
  {
    if i < |s| && |EscAll(s[..i])| <= cap {
      EscOneMore(s, i);
      FitExact(s, i + 1, cap);
    }
  }

  /** And it is the only one. */
  lemma TakenExact(s: Str, cap: nat, k: nat)
    ensures IsTaken(s, cap, k) <==> k == Taken(s, cap)
  {
    FitExact(s, 0, cap);
    assert s[..0] == [];
  }

  /** The names of the five entities of XML 1.0 section 4.6. */
  lemma EntityNames()
    ensures Entity(38) == Ascii("&amp;") && Entity(60) == Ascii("&lt;") && Entity(62) == Ascii("&gt;")
    ensures Entity(34) == Ascii("&quot;") && Entity(39) == Ascii("&apos;")
    ensures forall b: byte :: IsMarkup(b) <==> b in Ascii("&<>\"'")
  {
    assert Ascii("&<>\"'") == [38, 60, 62, 34, 39];
  }

  /** strncat appends at most cap characters of an entity. */
  predicate IsCut(b: byte, cap: nat) {
    IsMarkup(b) && |Entity(b)| > cap
  }

  predicate AnyCut(s: Str, cap: nat) {
    exists b <- s :: IsCut(b, cap)
  }

  /** The text that results: it ends inside the first entity that strncat cuts. */
  function Written(s: Str, cap: nat): Str {
    if s == [] then []
    else if IsCut(s[0], cap) then Entity(s[0])[..cap]
    else Esc(s[0]) + Written(s[1..], cap)
  }

  lemma {:induction false} EscAllAppend(a: Str, b: Str)
    ensures EscAll(a + b) == EscAll(a) + EscAll(b)
  {
    if a == [] {
      assert a + b == b;
    } else {
      assert (a + b)[1..] == a[1..] + b;
      EscAllAppend(a[1..], b);
    }
  }

  lemma EscNonZero(b: byte)
    requires b != 0
    ensures 0 !in Esc(b) && 1 <= |Esc(b)| <= 6
  {
    if !IsMarkup(b) && (Widened(b) < 32 || Widened(b) > 126) {
      ReferenceBytes(b);
    }
  }

  /** Markup characters that have no place in escaped text; '&' has one, at the beginning of a reference. */
  predicate IsRaw(b: byte) {
    b == 60 || b == 62 || b == 34 || b == 39
  }

  /** The two places of a reference. */
  lemma ReferencePlaces(b: byte)
    ensures b < 128 ==> Reference(b)[2] == b / 10 + 48
    ensures b >= 128 ==> 188 <= Reference(b)[2] <= 201
    ensures 48 <= Reference(b)[3] <= 57
  {
    if b >= 128 {
      HighPlace(Widened(b));
    } else {
      assert b / 10 + 48 <= 60;
    }
    assert 0 <= Widened(b) % 10 <= 9;
  }

  lemma HighPlace(ch: nat)
    requires 4294967168 <= ch < U32
    ensures 188 <= (ch / 10 + 48) % 256 <= 201
  {
    var d := ch / 10 - 429496716;
    assert 0 <= d <= 13;
    assert ch / 10 + 48 == 256 * 1677721 + 188 + d;
  }

  lemma ReferenceBytes(b: byte)
    ensures 0 !in Reference(b)
    ensures b >= 127 ==> !IsDigit(Reference(b)[2])
    ensures b < 32 || b > 126 ==> (IsRaw(Reference(b)[2]) <==> b == 127)
    ensures !IsRaw(Reference(b)[3])
  {
    ReferencePlaces(b);
    assert Reference(b) == [38, 35, Reference(b)[2], Reference(b)[3], 59];
  }

  lemma {:induction false} WrittenNonZero(s: Str, cap: nat)
    requires 0 !in s
    ensures 0 !in Written(s, cap)
  {
    if s != [] {
      EscNonZero(s[0]);
      WrittenNonZero(s[1..], cap);
    }
  }

  lemma {:induction false} WrittenAppend(a: Str, b: Str, cap: nat)
    requires !AnyCut(a, cap)
    ensures Written(a + b, cap) == EscAll(a) + Written(b, cap)
  {
    if a == [] {
      assert a + b == b;
    } else {
      assert (a + b)[1..] == a[1..] + b && a[0] in a;
      assert forall x <- a[1..] :: x in a;
      WrittenAppend(a[1..], b, cap);
      var first, middle, last := Esc(a[0]), EscAll(a[1..]), Written(b, cap);
      assert first + (middle + last) == (first + middle) + last;
      assert (a + b)[0] == a[0];
    }
  }

  /** What is appended for one character. */
  function Piece(b: byte, cap: nat): Str {
    if IsCut(b, cap) then Entity(b)[..cap] else Esc(b)
  }

  /** The buffer with t and a NUL written at off. */
  function Put(buf: Str, off: nat, t: Str): (r: Str)
    requires off + |t| < |buf|
    ensures |r| == |buf|
  {
    buf[..off] + t + [0] + buf[off + |t| + 1..]
  }

  /** The buffer holds the text for the characters taken so far and is otherwise as it was. Once an entity has
      been cut, the write position lies behind the text and above the limit. */
  predicate Escaped(buf: Str, orig: Str, taken: Str, off: nat, max: nat) {
    var text := Written(taken, max);
    0 !in taken && off == |EscAll(taken)| <= max + 6 < |orig| && |text| <= off && buf == Put(orig, 0, text) &&
    (|text| < off <==> AnyCut(taken, max)) && (|text| < off ==> max < off)
  }

  lemma PutPut(orig: Str, text: Str, piece: Str)
    requires |text| + |piece| < |orig|
    ensures Put(Put(orig, 0, text), |text|, piece) == Put(orig, 0, text + piece)
  {
    var buf := Put(orig, 0, text);
    assert buf[..|text|] == text && buf[|text| + |piece| + 1..] == orig[|text| + |piece| + 1..];
    assert orig[..0] + (text + piece) == text + piece;
  }

  lemma WrittenOne(taken: Str, b: byte, cap: nat)
    requires !AnyCut(taken, cap)
    ensures Written(taken, cap) == EscAll(taken) && Written(taken + [b], cap) == EscAll(taken) + Piece(b, cap)
    ensures EscAll(taken + [b]) == EscAll(taken) + Esc(b)
    ensures AnyCut(taken + [b], cap) <==> IsCut(b, cap)
  {
    WrittenAppend(taken, [], cap);
    WrittenAppend(taken, [b], cap);
    EscAllAppend(taken, [b]);
    assert taken + [] == taken && EscAll([b]) == Esc(b) + EscAll([b][1..]);
    assert Written([b], cap) == Piece(b, cap);
    assert (taken + [b])[|taken|] == b;
  }

  lemma EscapedStart(orig: Str, max: nat)
    requires |orig| == max + 7
    ensures Escaped(orig[0 := 0], orig, [], 0, max)
  {
  }

  lemma EscapedStep(buf: Str, orig: Str, taken: Str, b: byte, off: nat, max: nat)
    requires Escaped(buf, orig, taken, off, max) && off <= max && b != 0
    ensures off + |Piece(b, max)| < |buf|
    ensures Escaped(Put(buf, off, Piece(b, max)), orig, taken + [b], off + |Esc(b)|, max)
  {
    EscNonZero(b);
    WrittenOne(taken, b, max);
    PutPut(orig, Written(taken, max), Piece(b, max));
  }

  lemma EscapedText(buf: Str, orig: Str, taken: Str, off: nat, max: nat)
    requires Escaped(buf, orig, taken, off, max)
    ensures |buf| == |orig| && off < |buf| && (off <= max ==> buf[off] == 0)
  {
  }

  /** The end result. The characters taken are whole, and the text for them is in the buffer, which is
      otherwise as it was. Only if an entity has been cut does len exceed the length of the text; it then
      counts the whole entity, and a loop that still finds characters writes its NUL there. */
  predicate Finished(buf: Str, orig: Str, src: Str, len: nat)
    requires |orig| >= 7
  {
    var cap := |orig| - 7;
    var taken := src[..Taken(src, cap)];
    var text := Written(taken, cap);
    len == |EscAll(taken)| < |orig| && |text| <= len && (|text| < len <==> AnyCut(taken, cap)) &&
    CString(buf) == text &&
    buf == (if |taken| < |src| then Put(orig, 0, text)[len := 0] else Put(orig, 0, text))
  }

  /** A reader sees the text, whether or not a NUL is written at the write position. */
  lemma ReaderSees(buf: Str, orig: Str, taken: Str, off: nat, max: nat)
    requires Escaped(buf, orig, taken, off, max)
    ensures off < |buf| && CString(buf) == CString(buf[off := 0]) == Written(taken, max)
  {
    var text := Written(taken, max);
    WrittenNonZero(taken, max);
    var again := buf[off := 0];
    CStringOf(text, buf[|text|..]);
    assert buf == text + buf[|text|..];
    CStringOf(text, again[|text|..]);
    assert again == text + again[|text|..];
  }

  lemma Stopped(buf: Str, orig: Str, src: Str, i: nat, off: nat, max: nat)
    requires |orig| == max + 7 && i <= |src| && Escaped(buf, orig, src[..i], off, max)
    requires i == Taken(src, max)
    ensures off < |buf| && Finished(if i < |src| then buf[off := 0] else buf, orig, src, off)
  {
    ReaderSees(buf, orig, src[..i], off, max);
  }

  /** Appends at most n characters of t behind the text that ends at off, and a NUL. */
  method StrNCat(dst: array<byte>, off: nat, t: Str, n: nat)
    requires off < dst.Length && dst[off] == 0
    requires off + (if |t| <= n then |t| else n) < dst.Length
    modifies dst
    ensures var m := if |t| <= n then |t| else n;
      dst[..] == Put(old(dst[..]), off, t[..m])
  {
    var i := 0;
    while i < |t| && i < n
      invariant i <= |t| && i <= n
      invariant dst[..off + i] == old(dst[..off]) + t[..i]
      invariant dst[off + i..] == old(dst[off + i..])
    {
      dst[off + i] := t[i];
      i := i + 1;
    }
    dst[off + i] := 0;
  }

  method PutReference(dst: array<byte>, off: nat, c: byte)
    requires off + 5 < dst.Length
    modifies dst
    ensures dst[..] == Put(old(dst[..]), off, Reference(c))
  {
    var ch := Widened(c);
    dst[off] := 38;
    dst[off + 1] := 35;
    dst[off + 2] := (ch / 10 + 48) % 256;
    dst[off + 3] := (ch % 10 + 48) % 256;
    dst[off + 4] := 59;
    dst[off + 5] := 0;
  }

  /** The switch over one character; tells how far the write position moves. */
  method PutChar(dst: array<byte>, off: nat, c: byte, max: nat) returns (n: nat)
    requires c != 0 && off + 6 < dst.Length && dst[off] == 0
    modifies dst
    ensures n == |Esc(c)| && off + |Piece(c, max)| < dst.Length
    ensures dst[..] == Put(old(dst[..]), off, Piece(c, max))
  {
    EscNonZero(c);
    if IsMarkup(c) {
      StrNCat(dst, off, Entity(c), max);
      n := |Entity(c)|;
    } else if Widened(c) < 32 || Widened(c) > 126 {
      PutReference(dst, off, c);
      n := 5;
    } else {
      dst[off] := c;
      n := 1;
      dst[off + 1] := 0;
    }
  }

  /** One round of the loop. */
  method PutNext(dst: array<byte>, ghost orig: Str, src: Str, i: nat, off: nat, max: nat) returns (n: nat)
    requires i < |src| && 0 !in src && Escaped(dst[..], orig, src[..i], off, max)
    requires off <= max && max + 7 == dst.Length
    modifies dst
    ensures n == |Esc(src[i])| && Escaped(dst[..], orig, src[..i + 1], off + n, max)
  {
    EscapedText(dst[..], orig, src[..i], off, max);
    ghost var before := dst[..];
    n := PutChar(dst, off, src[i], max);
    EscapedStep(before, orig, src[..i], src[i], off, max);
    assert src[..i + 1] == src[..i] + [src[i]];
  }

  /** The NUL that ends the loop early. */
  method EndText(dst: array<byte>, ghost orig: Str, ghost src: Str, ghost i: nat, off: nat, ghost max: nat)
    requires |orig| == max + 7 && i < |src| && Escaped(dst[..], orig, src[..i], off, max)
    requires i == Taken(src, max)
    modifies dst
    ensures Finished(dst[..], orig, src, off)
  {
    ghost var buf := dst[..];
    Stopped(buf, orig, src, i, off, max);
    dst[off] := 0;
    assert dst[..] == buf[off := 0];
  }

  /** xml_escape(dst, src, dst.Length). */
  method XmlEscape(dst: array<byte>, src: Str) returns (len: nat)
    requires dst.Length >= 7 && 0 !in src
    modifies dst
    ensures Finished(dst[..], old(dst[..]), src, len)
  {
    ghost var orig := dst[..];
    var max := dst.Length - 7;
    len := 0;
    var i: nat := 0;
    dst[0] := 0;
    assert dst[..] == orig[0 := 0] && src[..0] == [];
    EscapedStart(orig, max);
    while i < |src|
      invariant i <= |src| && Escaped(dst[..], orig, src[..i], len, max)
      invariant Taken(src, max) == Fit(src, i, len, max)
    {
      if len > max {
        EndText(dst, orig, src, i, len, max);
        return;
      }
      var n := PutNext(dst, orig, src, i, len, max);
      len := len + n;
      i := i + 1;
    }
    Stopped(dst[..], orig, src, i, len, max);
  }

  // ---- Reading the text back ----

  predicate IsDigit(b: byte) {
    48 <= b <= 57
  }

  /** The value and the length of a decimal reference whose digits start here; XML 1.0 section 4.1. */
  function ReadDigits(s: Str, acc: nat, digits: nat): Option<(nat, Str)> {
    if s == [] then None
    else if s[0] == 59 then (if digits > 0 then Some((acc, s[1..])) else None)
    else if IsDigit(s[0]) then ReadDigits(s[1..], acc * 10 + (s[0] - 48), digits + 1)
    else None
  }

  /** One character of the escaped text and what follows it. The predefined entities are those of
      XML 1.0 section 4.6; a raw markup character is an error. */
  function ReadOne(s: Str): Option<(byte, Str)>
    requires s != []
  {
    if AMP <= s then Some((38, s[5..]))
    else if LT <= s then Some((60, s[4..]))
    else if GT <= s then Some((62, s[4..]))
    else if QUOT <= s then Some((34, s[6..]))
    else if APOS <= s then Some((39, s[6..]))
    else if [38, 35] <= s then
      var r := ReadDigits(s[2..], 0, 0);
      if r.Some? && r.value.0 < 256 then Some((r.value.0, r.value.1)) else None
    else if IsMarkup(s[0]) then None
    else Some((s[0], s[1..]))
  }

  lemma {:induction false} ReadDigitsShrinks(s: Str, acc: nat, digits: nat)
    ensures var r := ReadDigits(s, acc, digits); r.Some? ==> |r.value.1| < |s|
  {
    if s != [] && s[0] != 59 && IsDigit(s[0]) {
      ReadDigitsShrinks(s[1..], acc * 10 + (s[0] - 48), digits + 1);
    }
  }

  lemma ReadOneShrinks(s: Str)
    requires s != []
    ensures ReadOne(s).Some? ==> |ReadOne(s).value.1| < |s|
  {
    if [38, 35] <= s {
      ReadDigitsShrinks(s[2..], 0, 0);
    }
  }

  function Unescape(s: Str): Option<Str>
    decreases |s|
  {
    if s == [] then Some([])
    else
      var one := ReadOne(s);
      ReadOneShrinks(s);
      if one.None? then None
      else
        var rest := Unescape(one.value.1);
        if rest.None? then None else Some([one.value.0] + rest.value)
  }

  lemma ReadEntity(b: byte, rest: Str)
    requires IsMarkup(b)
    ensures ReadOne(Entity(b) + rest) == Some((b, rest))
  {
    var s := Entity(b) + rest;
    assert s[..|Entity(b)|] == Entity(b) && s[|Entity(b)|..] == rest;
    assert s[0] == Entity(b)[0] && s[1] == Entity(b)[1] && s[2] == Entity(b)[2] && s[3] == Entity(b)[3];
  }

  lemma ReadReference(b: byte, rest: Str)
    requires b < 32
    ensures ReadOne(Reference(b) + rest) == Some((b, rest))
  {
    var s := Reference(b) + rest;
    assert s[0] == 38 && s[1] == 35;
    assert s[2..] == [b / 10 + 48, b % 10 + 48, 59] + rest;
    var d := s[2..];
    assert d[1..] == [b % 10 + 48, 59] + rest && d[1..][1..] == [59] + rest && d[1..][1..][1..] == rest;
    assert ReadDigits(d[1..][1..], b, 2) == Some((b, rest));
    assert ReadDigits(d[1..], b / 10, 1) == ReadDigits(d[1..][1..], b, 2);
  }

  /** From 127 on the two places are not both digits. */
  lemma ReadBadReference(b: byte, rest: Str)
    requires b >= 127
    ensures ReadOne(Reference(b) + rest) == None
  {
    ReferenceBytes(b);
    var s := Reference(b) + rest;
    assert s[0] == 38 && s[1] == 35 && s[2..][0] == Reference(b)[2];
  }

  lemma ReadCut(b: byte, cap: nat)
    requires IsCut(b, cap)
    ensures cap > 0 ==> ReadOne(Entity(b)[..cap]).None?
    ensures Unescape(Entity(b)[..cap]) == if cap == 0 then Some([]) else None
  {
    var s := Entity(b)[..cap];
    assert |s| == cap < |Entity(b)|;
    if cap > 0 {
      assert s[0] == 38;
      assert cap > 1 ==> s[1] == Entity(b)[1] && s[1] != 35;
      assert cap > 2 ==> s[2] == Entity(b)[2];
      assert cap > 3 ==> s[3] == Entity(b)[3];
      assert !(AMP <= s) && !(LT <= s) && !(GT <= s) && !(QUOT <= s) && !(APOS <= s) && !([38, 35] <= s);
    }
  }

  predicate Readable(b: byte, cap: nat) {
    1 <= b <= 126 && !IsCut(b, cap)
  }

  lemma ReadEsc(b: byte, cap: nat, rest: Str)
    requires b > 0 && !IsCut(b, cap)
    ensures ReadOne(Esc(b) + rest) == if b <= 126 then Some((b, rest)) else None
  {
    if IsMarkup(b) {
      ReadEntity(b, rest);
    } else if b < 32 {
      ReadReference(b, rest);
    } else if b >= 127 {
      ReadBadReference(b, rest);
    } else {
      var s := [b] + rest;
      assert s[1..] == rest && s[0] == b && b != 38;
    }
  }

  /** Round trip, exactly: the text unescapes to the characters that were taken if and only if each of
      them is in the range 1 to 126 and no entity among them is longer than the buffer size less 7. */
  lemma {:induction false} RoundTrip(s: Str, cap: nat)
    requires 0 !in s
    ensures Unescape(Written(s, cap)) == Some(s) <==> forall b <- s :: Readable(b, cap)
  {
    if s != [] {
      assert s == [s[0]] + s[1..] && s[0] in s;
      if IsCut(s[0], cap) {
        ReadCut(s[0], cap);
      } else {
        RoundTrip(s[1..], cap);
        ReadEsc(s[0], cap, Written(s[1..], cap));
        EscNonZero(s[0]);
      }
    }
  }

  /** A buffer of 13 bytes or more cuts no entity; the smaller sizes down to 7 can. */
  lemma BigEnough(s: Str, cap: nat)
    requires cap >= 6
    ensures !AnyCut(s, cap)
  {
  }

  lemma SmallBufferFails(cap: nat)
    requires cap < 6
    ensures Taken([34], cap) == 1 && Unescape(Written([34], cap)) != Some([34])
  {
    RoundTrip([34], cap);
    assert 34 in [34] && IsCut(34, cap);
    assert Taken([34], cap) == Fit([34], 1, |Esc(34)|, cap);
  }

  /** The four markup characters other than '&'. */
  predicate HasRaw(t: Str) {
    exists i | 0 <= i < |t| :: IsRaw(t[i])
  }

  /** The characters whose escape is written whole. */
  function Whole(s: Str, cap: nat): Str {
    if s == [] || IsCut(s[0], cap) then [] else [s[0]] + Whole(s[1..], cap)
  }

  lemma RawAppend(a: Str, b: Str)
    ensures HasRaw(a + b) <==> HasRaw(a) || HasRaw(b)
  {
    if i :| 0 <= i < |a| && IsRaw(a[i]) {
      assert IsRaw((a + b)[i]);
    }
    if i :| 0 <= i < |b| && IsRaw(b[i]) {
      assert IsRaw((a + b)[|a| + i]);
    }
  }

  lemma RawEsc(b: byte, cap: nat)
    requires b != 0
    ensures HasRaw(Esc(b)) <==> b == 127
    ensures IsMarkup(b) && cap <= |Entity(b)| ==> !HasRaw(Entity(b)[..cap])
  {
    ReferenceBytes(b);
    if b == 127 {
      assert IsRaw(Esc(b)[2]);
    }
  }

  /** None of '<', '>' and the two quotes stands in the text, exactly unless character 127 is among those
      written whole: its reference has a '<' in it. About '&' see StrayMarkup. */
  lemma {:induction false} NoRawMarkup(s: Str, cap: nat)
    requires 0 !in s
    ensures HasRaw(Written(s, cap)) <==> 127 in Whole(s, cap)
  {
    if s != [] {
      RawEsc(s[0], cap);
      if !IsCut(s[0], cap) {
        NoRawMarkup(s[1..], cap);
        RawAppend(Esc(s[0]), Written(s[1..], cap));
      }
    }
  }

  /** The text begins with a markup character that is not the beginning of a readable reference. */
  predicate BeginsStray(t: Str)
    requires t != []
  {
    IsRaw(t[0]) || (t[0] == 38 && ReadOne(t).None?)
  }

  predicate HasStray(t: Str) {
    exists i | 0 <= i < |t| :: BeginsStray(t[i..])
  }

  /** Some character from 127 on is written whole, or an entity is cut behind its '&'. */
  predicate Garbles(s: Str, cap: nat) {
    (exists b <- Whole(s, cap) :: b >= 127) || (AnyCut(s, cap) && cap > 0)
  }

  lemma GarblesStep(s: Str, cap: nat)
    requires s != []
    ensures IsCut(s[0], cap) ==> (Garbles(s, cap) <==> cap > 0)
    ensures !IsCut(s[0], cap) ==> (Garbles(s, cap) <==> s[0] >= 127 || Garbles(s[1..], cap))
  {
    assert s == [s[0]] + s[1..];
    if IsCut(s[0], cap) {
      assert s[0] in s && Whole(s, cap) == [];
    } else {
      assert Whole(s, cap) == [s[0]] + Whole(s[1..], cap);
      assert s[0] in Whole(s, cap) && forall b :: b in Whole(s, cap) <==> b == s[0] || b in Whole(s[1..], cap);
      assert AnyCut(s, cap) <==> AnyCut(s[1..], cap);
    }
  }

  /** Behind its first place, the escape of such a character has no markup. */
  lemma InnerBytes(b: byte, i: nat)
    requires 0 < b < 127 && 1 <= i < |Esc(b)|
    ensures !IsMarkup(Esc(b)[i])
  {
    ReferencePlaces(b);
    ReferenceBytes(b);
  }

  lemma StrayAppend(e: Str, u: Str)
    requires e != [] && forall i | 1 <= i < |e| :: !IsMarkup(e[i])
    ensures HasStray(e + u) <==> BeginsStray(e + u) || HasStray(u)
  {
    var t := e + u;
    assert t[0..] == t;
    forall i | 1 <= i < |e|
      ensures !BeginsStray(t[i..])
    {
      assert t[i..][0] == e[i];
    }
    forall i | 0 <= i < |u|
      ensures t[|e| + i..] == u[i..]
    {
    }
    if i :| 0 <= i < |u| && BeginsStray(u[i..]) {
      assert BeginsStray(t[|e| + i..]);
    }
    if i :| |e| <= i < |t| && BeginsStray(t[i..]) {
      assert t[i..] == u[i - |e|..];
    }
  }

  /** In front of u, the escape of one character adds a stray character exactly from 127 on. */
  lemma StrayEsc(b: byte, cap: nat, u: Str)
    requires b != 0 && !IsCut(b, cap)
    ensures HasStray(Esc(b) + u) <==> b >= 127 || HasStray(u)
  {
    var t := Esc(b) + u;
    ReadEsc(b, cap, u);
    EscNonZero(b);
    assert t[0..] == t && t[0] == Esc(b)[0];
    if b >= 127 {
      assert BeginsStray(t[0..]);
    } else {
      forall i | 1 <= i < |Esc(b)| ensures !IsMarkup(Esc(b)[i]) { InnerBytes(b, i); }
      StrayAppend(Esc(b), u);
    }
  }

  lemma StrayCut(b: byte, cap: nat)
    requires IsCut(b, cap)
    ensures HasStray(Entity(b)[..cap]) <==> cap > 0
  {
    var t := Entity(b)[..cap];
    ReadCut(b, cap);
    if cap > 0 {
      assert t[0..] == t && BeginsStray(t[0..]);
    }
  }

  /** Counting every '&' that begins no readable reference as well, markup is left in the text exactly if a
      character from 127 on is written whole, or an entity is cut behind its '&'. */
  lemma {:induction false} StrayMarkup(s: Str, cap: nat)
    requires 0 !in s
    ensures HasStray(Written(s, cap)) <==> Garbles(s, cap)
  {
    if s != [] {
      GarblesStep(s, cap);
      if IsCut(s[0], cap) {
        StrayCut(s[0], cap);
      } else {
        StrayMarkup(s[1..], cap);
        StrayEsc(s[0], cap, Written(s[1..], cap));
      }
    }
  }

  /** For instance: characters 127 and 200 in any buffer, and a quotation mark in a buffer of 10 bytes. */
  lemma StrayWitness()
    ensures HasRaw(Written([127], 1016)) && HasStray(Written([200], 1016)) && !HasRaw(Written([200], 1016))
    ensures HasStray(Written([34], 3)) && !HasRaw(Written([34], 3)) && Whole([34], 3) == []
  {
    NoRawMarkup([127], 1016);
    NoRawMarkup([200], 1016);
    NoRawMarkup([34], 3);
    assert Whole([127], 1016) == [127] + Whole([127][1..], 1016);
    assert Whole([200], 1016) == [200] + Whole([200][1..], 1016);
    StrayMarkup([200], 1016);
    StrayMarkup([34], 3);
    assert IsCut(34, 3) && [34][0] in [34] && AnyCut([34], 3);
    assert 200 in Whole([200], 1016);
  }

  /** In exactly these cases the text cannot be unescaped at all. */
  lemma {:induction false} UnreadableExact(s: Str, cap: nat)
    requires 0 !in s
    ensures Unescape(Written(s, cap)).None? <==> Garbles(s, cap)
  {
    if s != [] {
      GarblesStep(s, cap);
      if IsCut(s[0], cap) {
        ReadCut(s[0], cap);
      } else {
        UnreadableExact(s[1..], cap);
        ReadEsc(s[0], cap, Written(s[1..], cap));
        EscNonZero(s[0]);
      }
    }
  }
}
