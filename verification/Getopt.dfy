/** The argument permutation of lib/getopt.c: short options, default ordering (PERMUTE). */
module Getopt {
  import opened Base

  // ---- exchange: two adjacent blocks change places ----

  /** s with the blocks [bottom, middle) and [middle, top) exchanged. */
  function Rotated<T>(s: seq<T>, bottom: nat, middle: nat, top: nat): seq<T>
    requires bottom <= middle <= top <= |s|
  {
    s[..bottom] + s[middle..top] + s[bottom..middle] + s[top..]
  }

  /** Exchanging the two middle ones of four blocks. */
  lemma RotatedBlocks<T>(front: seq<T>, a: seq<T>, b: seq<T>, rest: seq<T>)
    ensures Rotated(front + a + b + rest, |front|, |front| + |a|, |front| + |a| + |b|) == front + b + a + rest
  {
    var s := front + a + b + rest;
    assert s[..|front|] == front && s[|front|..|front| + |a|] == a;
    assert s[|front| + |a|..|front| + |a| + |b|] == b && s[|front| + |a| + |b|..] == rest;
  }

  /** s with the two blocks of length len at i and j swapped. */
  function Swapped<T>(s: seq<T>, i: nat, j: nat, len: nat): seq<T>
    requires i + len <= j && j + len <= |s|
  {
    s[..i] + s[j..j + len] + s[i + len..j] + s[i..i + len] + s[j + len..]
  }

  /** Five blocks, of which the second and the fourth have just been swapped. */
  lemma BottomBlocks<T>(p: seq<T>, x: seq<T>, y1: seq<T>, y2: seq<T>, e: seq<T>)
    requires |x| == |y2|
    ensures Rotated(p + y2 + y1 + x + e, |p|, |p| + |x|, |p| + |x| + |y1|) == p + (y1 + y2) + x + e
  {
    assert p + y2 + y1 + x + e == p + y2 + y1 + (x + e);
    RotatedBlocks(p, y2, y1, x + e);
    assert p + y1 + y2 + (x + e) == p + (y1 + y2) + x + e;
  }

  lemma TopBlocks<T>(p: seq<T>, x1: seq<T>, x2: seq<T>, y: seq<T>, e: seq<T>)
    requires |x1| == |y|
    ensures Rotated(p + y + x2 + x1 + e, |p| + |y|, |p| + |y| + |x2|, |p| + |y| + |x2| + |x1|) == p + y + (x1 + x2) + e
  {
    RotatedBlocks(p + y, x2, x1, e);
    assert p + y + x1 + x2 + e == p + y + (x1 + x2) + e;
  }

  /** Swapping the short bottom block with the far end of the top block, from cut on, puts it into its place. */
  lemma BottomIsShort<T>(s: seq<T>, s': seq<T>, bottom: nat, middle: nat, cut: nat, top: nat)
    requires bottom < middle < cut < top <= |s| && top - cut == middle - bottom
    requires s' == Swapped(s, bottom, cut, middle - bottom)
    ensures |s'| == |s| && Rotated(s', bottom, middle, cut) == Rotated(s, bottom, middle, top)
  {
    var p, x, y1, y2, e := s[..bottom], s[bottom..middle], s[middle..cut], s[cut..top], s[top..];
    BottomBlocks(p, x, y1, y2, e);
    assert s' == p + y2 + y1 + x + e;
    assert Rotated(s, bottom, middle, top) == p + (y1 + y2) + x + e by {
      assert s[middle..top] == y1 + y2;
    }
  }

  lemma TopIsShort<T>(s: seq<T>, s': seq<T>, bottom: nat, cut: nat, middle: nat, top: nat)
    requires bottom < cut <= middle < top <= |s| && cut - bottom == top - middle
    requires s' == Swapped(s, bottom, middle, top - middle)
    ensures |s'| == |s| && Rotated(s', cut, middle, top) == Rotated(s, bottom, middle, top)
  {
    var p, x1, x2, y, e := s[..bottom], s[bottom..cut], s[cut..middle], s[middle..top], s[top..];
    TopBlocks(p, x1, x2, y, e);
    assert s' == p + y + x2 + x1 + e;
    assert Rotated(s, bottom, middle, top) == p + y + (x1 + x2) + e by {
      assert s[bottom..middle] == x1 + x2;
    }
  }

  /** The inner loops of exchange. */
  method SwapBlocks<T>(a: array<T>, i: nat, j: nat, len: nat)
    requires i + len <= j && j + len <= a.Length
    modifies a
    ensures a[..] == Swapped(old(a[..]), i, j, len)
  {
    ghost var s, d := a[..], j - i;
    for k := 0 to len
      invariant forall n | i <= n < i + k :: a[n] == s[n + d]
      invariant forall n | j <= n < j + k :: a[n] == s[n - d]
      invariant forall n | 0 <= n < a.Length && !(i <= n < i + k) && !(j <= n < j + k) :: a[n] == s[n]
    {
      var tem := a[i + k];
      a[i + k] := a[j + k];
      a[j + k] := tem;
    }
    forall n | 0 <= n < a.Length
      ensures a[n] == Swapped(s, i, j, len)[n]
    {
      SwappedAt(s, i, j, len, n);
    }
  }

  lemma SwappedAt<T>(s: seq<T>, i: nat, j: nat, len: nat, n: nat)
    requires i + len <= j && j + len <= |s| && n < |s|
    ensures |Swapped(s, i, j, len)| == |s|
    ensures Swapped(s, i, j, len)[n] ==
            if i <= n < i + len then s[n + (j - i)] else if j <= n < j + len then s[n - (j - i)] else s[n]
  {
  }

  lemma NothingToRotate<T>(s: seq<T>, bottom: nat, middle: nat, top: nat)
    requires bottom <= middle <= top <= |s| && (bottom == middle || middle == top)
    ensures Rotated(s, bottom, middle, top) == s
  {
  }

  method MoveBottom<T>(a: array<T>, bottom: nat, middle: nat, cut: nat, top: nat)
    requires bottom < middle < cut < top <= a.Length && top - cut == middle - bottom
    modifies a
    ensures Rotated(a[..], bottom, middle, cut) == Rotated(old(a[..]), bottom, middle, top)
  {
    ghost var s := a[..];
    SwapBlocks(a, bottom, cut, middle - bottom);
    ghost var s' := a[..];
    BottomIsShort(s, s', bottom, middle, cut, top);
  }

  method MoveTop<T>(a: array<T>, bottom: nat, cut: nat, middle: nat, top: nat)
    requires bottom < cut <= middle < top <= a.Length && cut - bottom == top - middle
    modifies a
    ensures Rotated(a[..], cut, middle, top) == Rotated(old(a[..]), bottom, middle, top)
  {
    ghost var s := a[..];
    SwapBlocks(a, bottom, middle, top - middle);
    ghost var s' := a[..];
    TopIsShort(s, s', bottom, cut, middle, top);
  }

  /** One round of exchange: the shorter block goes into its place. */
  method ExchangeRound<T>(a: array<T>, bottom: nat, middle: nat, top: nat) returns (bottom': nat, top': nat)
    requires bottom < middle < top <= a.Length
    modifies a
    ensures bottom <= bottom' <= middle <= top' <= top && top' - bottom' < top - bottom
    ensures Rotated(a[..], bottom', middle, top') == Rotated(old(a[..]), bottom, middle, top)
  {
    bottom', top' := bottom, top;
    if top - middle > middle - bottom {
      top' := top - (middle - bottom);
      MoveBottom(a, bottom, middle, top', top);
    } else {
      bottom' := bottom + (top - middle);
      MoveTop(a, bottom, bottom', middle, top);
    }
  }

  /** exchange turns the adjacent blocks A B into B A and keeps the order inside each. */
  method Exchange<T>(a: array<T>, first: nat, last: nat, optind: nat)
    requires first <= last <= optind <= a.Length
    modifies a
    ensures a[..] == Rotated(old(a[..]), first, last, optind)
  {
    var bottom: nat, middle: nat, top: nat := first, last, optind;
    ghost var goal := Rotated(a[..], first, last, optind);
    while top > middle && middle > bottom
      invariant bottom <= middle <= top <= a.Length
      invariant Rotated(a[..], bottom, middle, top) == goal
      decreases top - bottom
    {
      bottom, top := ExchangeRound(a, bottom, middle, top);
    }
    NothingToRotate(a[..], bottom, middle, top);
  }

  // ---- What a command line means ----

  datatype Opt = Opt(c: char, arg: Option<string>)

  datatype Takes = Unknown | NoArg | RequiredArg | OptionalArg

  /** What optstring says about an option character: the first occurrence counts. */
  function Lookup(optstring: string, c: char): Takes {
    if c == ':' || optstring == "" then Unknown
    else if optstring[0] == c then
      if |optstring| > 1 && optstring[1] == ':' then
        (if |optstring| > 2 && optstring[2] == ':' then OptionalArg else RequiredArg)
      else NoArg
    else Lookup(optstring[1..], c)
  }

  /** The option strings of the default ordering, without the extension for long options. */
  predicate Permutes(optstring: string) {
    !("+" <= optstring) && !("-" <= optstring) && !HasLongMark(optstring)
  }

  predicate HasLongMark(optstring: string) {
    optstring != "" && ("W;" <= optstring || HasLongMark(optstring[1..]))
  }

  predicate IsNonOption(a: string) {
    a == "" || a[0] != '-' || a == "-"
  }

  /** Whether the option characters of an element end with one that takes the next element. */
  predicate TakesNext(optstring: string, chars: string) {
    chars != "" &&
    match Lookup(optstring, chars[0])
    case RequiredArg => |chars| == 1
    case OptionalArg => false
    case _ => TakesNext(optstring, chars[1..])
  }

  /** How many elements an option element uses up. */
  function Width(optstring: string, args: seq<string>): (w: nat)
    requires args != [] && args[0] != ""
    ensures 1 <= w <= |args| && w <= 2
  {
    if TakesNext(optstring, args[0][1..]) && |args| > 1 then 2 else 1
  }

  /** The option elements with their arguments and any "--", and the rest, each in order. */
  function Split(optstring: string, args: seq<string>): (seq<string>, seq<string>)
    decreases |args|
  {
    if args == [] then ([], [])
    else if args[0] == "--" then (["--"], args[1..])
    else if IsNonOption(args[0]) then
      var (o, n) := Split(optstring, args[1..]);
      (o, [args[0]] + n)
    else
      var w := Width(optstring, args);
      var (o, n) := Split(optstring, args[w..]);
      (args[..w] + o, n)
  }

  lemma SplitConsumes(optstring: string, args: seq<string>)
    requires args != [] && args[0] != "--" && !IsNonOption(args[0])
    ensures var w := Width(optstring, args); var (o, n) := Split(optstring, args[w..]);
      Split(optstring, args) == (args[..w] + o, n)
  {
  }

  function Missing(optstring: string): char {
    if optstring != "" && optstring[0] == ':' then ':' else '?'
  }

  /** The options in one element, given the element behind it. */
  function Elem(optstring: string, chars: string, next: Option<string>): seq<Opt>
    requires chars != ""
  {
    var c, more := chars[0], chars[1..];
    match Lookup(optstring, c)
    case Unknown => [Opt('?', None)] + if more == "" then [] else Elem(optstring, more, next)
    case NoArg => [Opt(c, None)] + if more == "" then [] else Elem(optstring, more, next)
    case OptionalArg => [Opt(c, if more == "" then None else Some(more))]
    case RequiredArg =>
      if more != "" then [Opt(c, Some(more))]
      else if next.Some? then [Opt(c, next)]
      else [Opt(Missing(optstring), None)]
  }

  function Second(args: seq<string>): Option<string> {
    if |args| > 1 then Some(args[1]) else None
  }

  /** All options of a command line. */
  function Options(optstring: string, args: seq<string>): seq<Opt>
    decreases |args|
  {
    if args == [] || args[0] == "--" then []
    else if IsNonOption(args[0]) then Options(optstring, args[1..])
    else Elem(optstring, args[0][1..], Second(args)) + Options(optstring, args[Width(optstring, args)..])
  }

  /** o is what getopt returns for an option character that takes no argument. */
  predicate TakesNoArg(optstring: string, c: char, o: Opt) {
    match Lookup(optstring, c)
    case Unknown => o == Opt('?', None)
    case NoArg => o == Opt(c, None)
    case _ => false
  }

  lemma ElemStep(optstring: string, chars: string, next: Option<string>, o: Opt)
    requires chars != "" && TakesNoArg(optstring, chars[0], o)
    ensures Elem(optstring, chars, next) == [o] + if chars[1..] == "" then [] else Elem(optstring, chars[1..], next)
    ensures TakesNext(optstring, chars) == TakesNext(optstring, chars[1..])
  {
  }

  lemma OptionsOfElement(optstring: string, args: seq<string>)
    requires args != [] && args[0] != "--" && !IsNonOption(args[0])
    ensures Options(optstring, args) ==
            Elem(optstring, args[0][1..], Second(args)) + Options(optstring, args[Width(optstring, args)..])
  {
  }

  lemma Regroup(front: seq<string>, nons: seq<string>, mid: seq<string>, head: seq<string>, tail: seq<string>)
    ensures front + nons + mid + (head + tail) == front + nons + (mid + head) + tail
    ensures front + mid + (head + tail) == front + (mid + head) + tail
  {
  }

  lemma FirstOut(all: seq<Opt>, o: Opt, elem: seq<Opt>, tail: seq<Opt>)
    requires all == [o] + elem
    ensures all + tail == [o] + (elem + tail)
  {
  }

  class Scanner {
    const argv: array<string>
    const optstring: string
    ghost const orig: seq<string>
    var optind: nat
    var firstNonopt: nat
    var lastNonopt: nat
    var nextchar: string    // "" between elements
    var optarg: Option<string>
    ghost var front: seq<string>  // argv[0] and the options in front of the skipped non-options
    ghost var nons: seq<string>   // the skipped non-options
    ghost var mid: seq<string>    // the options found behind them

    /** argv is made of the three blocks and what has not been scanned yet. */
    ghost predicate Layout()
      reads `optind, `firstNonopt, `lastNonopt, `front, `nons, `mid, argv
    {
      |orig| == argv.Length && 1 <= |front| && optind <= argv.Length &&
      |front| == firstNonopt && |front| + |nons| == lastNonopt && |front| + |nons| + |mid| == optind &&
      argv[..] == front + nons + mid + orig[optind..]
    }

    /** The blocks and the classification of the rest make up the classification of the whole. */
    ghost predicate Blocks()
      reads `optind, `firstNonopt, `lastNonopt, `front, `nons, `mid, argv
    {
      Layout() &&
      front + mid + Split(optstring, orig[optind..]).0 == [orig[0]] + Split(optstring, orig[1..]).0 &&
      nons + Split(optstring, orig[optind..]).1 == Split(optstring, orig[1..]).1
    }

    /** Inside an element, nextchar is a proper end of it. */
    ghost predicate Valid()
      reads `optind, `firstNonopt, `lastNonopt, `front, `nons, `mid, argv, `nextchar
    {
      Blocks() &&
      (nextchar != "" ==>
        optind < argv.Length && orig[optind] != "--" && !IsNonOption(orig[optind]) &&
        TakesNext(optstring, nextchar) == TakesNext(optstring, orig[optind][1..]))
    }

    /** The options still to be returned. */
    ghost function Pending(): seq<Opt>
      requires Valid()
      reads `optind, `firstNonopt, `lastNonopt, `front, `nons, `mid, argv, `nextchar
    {
      if nextchar == "" then Options(optstring, orig[optind..])
      else Elem(optstring, nextchar, Second(orig[optind..]))
           + Options(optstring, orig[optind + Width(optstring, orig[optind..])..])
    }

    constructor (argv: array<string>, optstring: string)
      requires argv.Length >= 1
      ensures Valid() && this.argv == argv && this.optstring == optstring && orig == argv[..]
      ensures Pending() == Options(optstring, argv[..][1..])
      ensures nextchar == ""
    {
      this.argv, this.optstring, this.orig := argv, optstring, argv[..];
      optind, firstNonopt, lastNonopt, nextchar, optarg := 1, 1, 1, "", None;
      front, nons, mid := [argv[0]], [], [];
    }

    lemma AtOptind()
      requires Blocks() && optind < argv.Length
      ensures argv[optind] == orig[optind] && orig[optind..] == [orig[optind]] + orig[optind + 1..]
    {
      assert argv[optind] == argv[..][optind] == orig[optind..][0];
    }

    /** The options behind the skipped block change places with it. */
    method BringForward()
      requires Blocks()
      modifies this`firstNonopt, this`lastNonopt, this`front, this`mid, argv
      ensures Blocks() && lastNonopt == optind && mid == []
    {
      ghost var rest, done := orig[optind..], front + mid;
      ghost var s := Split(optstring, rest);
      PutForward();
      lastNonopt := optind;
      Joined(done, nons, rest);
      assert done + [] + s.0 == front + mid + s.0;
      front, mid := done, [];
    }

    method PutForward()
      requires Layout()
      modifies this`firstNonopt, argv
      ensures argv[..] == front + mid + nons + orig[optind..] && firstNonopt == |front| + |mid|
    {
      if firstNonopt != lastNonopt && lastNonopt != optind {
        RotatedBlocks(front, nons, mid, orig[optind..]);
        Exchange(argv, firstNonopt, lastNonopt, optind);
        firstNonopt := firstNonopt + (optind - lastNonopt);
      } else if lastNonopt != optind {
        assert nons == [];
        firstNonopt := optind;
      } else {
        assert mid == [];
      }
    }

    lemma Shifted(a: seq<string>, b: seq<string>, c: seq<string>)
      requires c != []
      ensures a + b + [] + c == a + (b + [c[0]]) + [] + c[1..]
    {
    }

    lemma Joined(a: seq<string>, b: seq<string>, c: seq<string>)
      ensures a + b + c == a + b + [] + c
    {
    }

    /** The non-options at optind join the skipped block. */
    method SkipNonOptions()
      requires Blocks() && mid == []
      modifies this`optind, this`lastNonopt, this`nons
      ensures Blocks() && (optind < argv.Length ==> !IsNonOption(orig[optind]))
      ensures Options(optstring, orig[optind..]) == Options(optstring, orig[old(optind)..])
    {
      ghost var pending := Options(optstring, orig[optind..]);
      while optind < argv.Length && IsNonOption(argv[optind])
        invariant Blocks()
        invariant Options(optstring, orig[optind..]) == pending
        decreases argv.Length - optind
      {
        SkipOne();
      }
      if optind < argv.Length {
        AtOptind();
      }
    }

    method SkipOne()
      requires Blocks() && mid == [] && optind < argv.Length && IsNonOption(argv[optind])
      modifies this`optind, this`lastNonopt, this`nons
      ensures Blocks() && optind == old(optind) + 1
      ensures Options(optstring, orig[optind..]) == Options(optstring, orig[old(optind)..])
    {
      AtOptind();
      ghost var rest := orig[optind..];
      assert rest[0] == argv[optind] && rest[1..] == orig[optind + 1..];
      Shifted(front, nons, rest);
      nons := nons + [argv[optind]];
      optind := optind + 1;
      lastNonopt := optind;
    }

    /** The option element at optind, with the argument it takes, is done. */
    method Consume(w: nat)
      requires Blocks() && optind < argv.Length && orig[optind] != "--" && !IsNonOption(orig[optind])
      requires w == Width(optstring, orig[optind..])
      modifies this`optind, this`mid, this`nextchar
      ensures Blocks() && nextchar == "" && optind == old(optind) + w
    {
      ghost var rest := orig[optind..];
      ghost var used, tail := rest[..w], rest[w..];
      assert rest == used + tail && tail == orig[optind + w..];
      SplitConsumes(optstring, rest);
      Regroup(front, nons, mid, used, tail);
      Regroup(front, nons, mid, used, Split(optstring, tail).0);
      mid := mid + used;
      optind := optind + w;
      nextchar := "";
    }

    /** "--" ends the options: it goes with them, and everything behind it is a non-option. */
    method EndOfOptions()
      requires Blocks() && mid == [] && optind < argv.Length && orig[optind] == "--"
      modifies this`optind, this`firstNonopt, this`lastNonopt, this`front, this`nons, this`mid, argv
      ensures Blocks() && mid == [] && optind == argv.Length
    {
      AtOptind();
      ghost var rest, done := orig[optind + 1..], front + ["--"];
      assert Split(optstring, orig[optind..]) == (["--"], rest);
      optind := optind + 1;
      mid := ["--"];
      PutForward();
      Reached(done, nons, rest);
      front, nons, mid := done, nons + rest, [];
      lastNonopt := argv.Length;
      optind := argv.Length;
    }

    lemma Reached(a: seq<string>, b: seq<string>, c: seq<string>)
      ensures a + b + c == a + (b + c) + [] + orig[|orig|..]
      ensures Split(optstring, orig[|orig|..]) == ([], [])
      ensures a + [] + [] == a && (b + c) + [] == b + c
    {
    }

    /** Everything has been scanned: options in front, non-options behind, optind in between. */
    ghost predicate Final()
      reads `optind, argv
    {
      |orig| == argv.Length > 0 &&
      var (o, n) := Split(optstring, orig[1..]);
      argv[..] == [orig[0]] + o + n && optind == 1 + |o|
    }

    /** Move to the next option element, if there is one. */
    method Advance() returns (done: bool)
      requires Valid() && nextchar == ""
      modifies this, argv
      ensures !done ==> Valid() && nextchar != "" && Pending() == old(Pending())
      ensures done ==> old(Pending()) == [] && Final()
    {
      ToElement();
      if optind == argv.Length {
        Finish();
        return true;
      }
      Enter();
      return false;
    }

    /** Start with the characters behind the dash. */
    method Enter()
      requires Blocks() && optind < argv.Length && orig[optind] != "--" && !IsNonOption(orig[optind])
      modifies this`nextchar
      ensures Valid() && nextchar != "" && Pending() == Options(optstring, orig[optind..])
    {
      AtOptind();
      nextchar := argv[optind][1..];
      PendingOfElement();
    }

    lemma PendingOfElement()
      requires Blocks() && optind < argv.Length && orig[optind] != "--" && !IsNonOption(orig[optind])
      requires nextchar == orig[optind][1..]
      ensures Valid() && nextchar != "" && Pending() == Options(optstring, orig[optind..])
    {
      var rest := orig[optind..];
      OptionsOfElement(optstring, rest);
      assert rest[Width(optstring, rest)..] == orig[optind + Width(optstring, rest)..];
    }

    /** Exchange, skip, and stop at an option element or at the end. */
    method ToElement()
      requires Blocks()
      modifies this`optind, this`firstNonopt, this`lastNonopt, this`front, this`nons, this`mid, argv
      ensures Blocks() && mid == []
      ensures Options(optstring, orig[optind..]) == Options(optstring, orig[old(optind)..])
      ensures optind < argv.Length ==> orig[optind] != "--" && !IsNonOption(orig[optind])
    {
      BringForward();
      SkipNonOptions();
      if optind < argv.Length {
        AtOptind();
      }
      if optind != argv.Length && argv[optind] == "--" {
        EndOfOptions();
      }
    }

    method Finish()
      requires Blocks() && mid == [] && optind == argv.Length
      modifies this`optind
      ensures Final()
    {
      assert Split(optstring, orig[optind..]) == ([], []);
      assert front == [orig[0]] + Split(optstring, orig[1..]).0;
      if firstNonopt != lastNonopt {
        optind := firstNonopt;
      }
    }

    /** Take the next option character of the current element. */
    method Decode() returns (o: Opt)
      requires Valid() && nextchar != ""
      modifies this
      ensures Valid() && old(Pending()) == [o] + Pending()
    {
      var c, more := nextchar[0], nextchar[1..];
      match Lookup(optstring, c) {
        case Unknown =>
          o := Opt('?', None);
          StepOver(more, o);
        case NoArg =>
          o := Opt(c, None);
          StepOver(more, o);
        case OptionalArg =>
          optarg := if more != "" then Some(more) else None;
          o := Opt(c, optarg);
          Leave(1, o);
        case RequiredArg =>
          o := TakeArgument(c, more);
      }
    }

    lemma NextElement()
      requires Layout() && optind + 1 < argv.Length
      ensures Second(orig[optind..]) == Some(argv[optind + 1])
    {
      assert argv[optind + 1] == argv[..][optind + 1] == orig[optind..][1];
    }

    /** A required argument is the rest of the element, or else the next element. */
    method TakeArgument(c: char, more: string) returns (o: Opt)
      requires Valid() && nextchar != "" && c == nextchar[0] && more == nextchar[1..]
      requires Lookup(optstring, c).RequiredArg?
      modifies this
      ensures Valid() && old(Pending()) == [o] + Pending()
    {
      if more != "" {
        optarg := Some(more);
        o := Opt(c, optarg);
        Leave(1, o);
      } else if optind + 1 == argv.Length {
        o := Opt(Missing(optstring), None);
        Leave(1, o);
      } else {
        NextElement();
        optarg := Some(argv[optind + 1]);
        o := Opt(c, optarg);
        Leave(2, o);
      }
    }

    /** The last option of an element has been taken. */
    method Leave(w: nat, ghost o: Opt)
      requires Valid() && nextchar != "" && Elem(optstring, nextchar, Second(orig[optind..])) == [o]
      requires w == if TakesNext(optstring, nextchar) && optind + 1 < argv.Length then 2 else 1
      modifies this`nextchar, this`optind, this`mid
      ensures Valid() && old(Pending()) == [o] + Pending()
    {
      ghost var rest := orig[optind..];
      assert w == Width(optstring, rest);
      assert Pending() == [o] + Options(optstring, orig[optind + w..]);
      Consume(w);
    }

    /** Behind an option character without argument comes the next one, or the next element. */
    method StepOver(more: string, ghost o: Opt)
      requires Valid() && nextchar != "" && more == nextchar[1..] && TakesNoArg(optstring, nextchar[0], o)
      modifies this`nextchar, this`optind, this`mid
      ensures Valid() && old(Pending()) == [o] + Pending()
    {
      ElemStep(optstring, nextchar, Second(orig[optind..]), o);
      if more == "" {
        Leave(1, o);
      } else {
        Follow(more, o);
      }
    }

    method Follow(more: string, ghost o: Opt)
      requires Valid() && nextchar != "" && more == nextchar[1..] && more != ""
      requires Elem(optstring, nextchar, Second(orig[optind..])) == [o] + Elem(optstring, more, Second(orig[optind..]))
      requires TakesNext(optstring, nextchar) == TakesNext(optstring, more)
      modifies this`nextchar
      ensures Valid() && old(Pending()) == [o] + Pending()
    {
      ghost var elem := Elem(optstring, more, Second(orig[optind..]));
      ghost var tail := Options(optstring, orig[optind + Width(optstring, orig[optind..])..]);
      FirstOut(Elem(optstring, nextchar, Second(orig[optind..])), o, elem, tail);
      nextchar := more;
    }

    /** One call of getopt. */
    method Next() returns (r: Option<Opt>)
      requires Valid()
      modifies this, argv
      ensures r.Some? ==> Valid() && old(Pending()) == [r.value] + Pending()
      ensures r.None? ==> old(Pending()) == [] && Final()
    {
      optarg := None;
      if nextchar == "" {
        var done := Advance();
        if done {
          return None;
        }
      }
      var o := Decode();
      r := Some(o);
    }
  }

  /** Calling getopt until it returns -1. */
  method ScanRest(g: Scanner) returns (opts: seq<Opt>)
    requires g.Valid()
    modifies g, g.argv
    ensures opts == old(g.Pending()) && g.Final()
    decreases |g.Pending()|
  {
    var r := g.Next();
    if r.None? {
      return [];
    }
    var rest := ScanRest(g);
    opts := [r.value] + rest;
  }

  /** All calls together yield all options of the command line in order, and leave argv[0], then the
      consumed elements with their arguments and any "--", then the non-options, each in their old order,
      with optind at the first non-option. */
  method ScanAll(argv: array<string>, optstring: string) returns (opts: seq<Opt>, optind: nat)
    requires argv.Length >= 1 && Permutes(optstring)
    modifies argv
    ensures opts == Options(optstring, old(argv[..])[1..])
    ensures var (o, n) := Split(optstring, old(argv[..])[1..]);
      argv[..] == [old(argv[0])] + o + n && optind == 1 + |o|
  {
    var g := new Scanner(argv, optstring);
    opts := ScanRest(g);
    optind := g.optind;
  }

  // ---- Split by itself ----

  /** o and n together are the elements of args. */
  predicate KeepsAll(o: seq<string>, n: seq<string>, args: seq<string>) {
    multiset(o) + multiset(n) == multiset(args) && |o| + |n| == |args|
  }

  lemma KeepsInFront(a: seq<string>, o: seq<string>, n: seq<string>, rest: seq<string>)
    requires KeepsAll(o, n, rest)
    ensures KeepsAll(a + o, n, a + rest) && KeepsAll(o, a + n, a + rest)
  {
  }

  /** Nothing is lost or made up. */
  lemma {:induction false} SplitKeepsAll(optstring: string, args: seq<string>)
    ensures var (o, n) := Split(optstring, args); KeepsAll(o, n, args)
    decreases |args|
  {
    if args != [] && args[0] == "--" {
      assert args == ["--"] + args[1..];
    } else if args != [] {
      var w := if IsNonOption(args[0]) then 1 else Width(optstring, args);
      var (o, n) := Split(optstring, args[w..]);
      SplitKeepsAll(optstring, args[w..]);
      KeepsInFront(args[..w], o, n, args[w..]);
      assert args == args[..w] + args[w..];
      if IsNonOption(args[0]) {
        assert args[..1] == [args[0]];
      } else {
        SplitConsumes(optstring, args);
      }
    }
  }

  /** Which elements go to the front. */
  function Mask(optstring: string, args: seq<string>): (m: seq<bool>)
    ensures |m| == |args|
    decreases |args|
  {
    if args == [] then []
    else if args[0] == "--" then [true] + seq(|args| - 1, _ => false)
    else if IsNonOption(args[0]) then [false] + Mask(optstring, args[1..])
    else
      var w := Width(optstring, args);
      seq(w, _ => true) + Mask(optstring, args[w..])
  }

  /** The elements on one side of a mask, in their order. */
  function Picked(args: seq<string>, mask: seq<bool>, side: bool): seq<string>
    requires |args| == |mask|
  {
    if args == [] then []
    else (if mask[0] == side then [args[0]] else []) + Picked(args[1..], mask[1..], side)
  }

  lemma {:induction false} PickedAppend(a: seq<string>, b: seq<string>, m: seq<bool>, k: seq<bool>, side: bool)
    requires |a| == |m| && |b| == |k|
    ensures Picked(a + b, m + k, side) == Picked(a, m, side) + Picked(b, k, side)
  {
    if a == [] {
      assert a + b == b && m + k == k;
    } else {
      PickedAppend(a[1..], b, m[1..], k, side);
      var s, t, head := a + b, m + k, if m[0] == side then [a[0]] else [];
      assert s[0] == a[0] && t[0] == m[0] && s[1..] == a[1..] + b && t[1..] == m[1..] + k;
      var x, y := Picked(a[1..], m[1..], side), Picked(b, k, side);
      assert head + (x + y) == (head + x) + y;
    }
  }

  lemma {:induction false} PickedAll(a: seq<string>, m: seq<bool>, side: bool)
    requires |a| == |m| && forall i | 0 <= i < |m| :: m[i] == side
    ensures Picked(a, m, side) == a && Picked(a, m, !side) == []
  {
    if a != [] {
      PickedAll(a[1..], m[1..], side);
    }
  }

  /** Both parts keep the order of the arguments: they are the two sides of one mask. */
  lemma {:induction false} SplitIsStable(optstring: string, args: seq<string>)
    ensures var m := Mask(optstring, args);
      Split(optstring, args) == (Picked(args, m, true), Picked(args, m, false))
    decreases |args|
  {
    var m := Mask(optstring, args);
    if args == [] {
    } else if args[0] == "--" {
      PickedAll(args[1..], m[1..], false);
      var rest := Picked(args[1..], m[1..], false);
      assert [args[0]] + [] == ["--"] && [] + rest == rest;
    } else if IsNonOption(args[0]) {
      SplitIsStable(optstring, args[1..]);
      var rest := Picked(args[1..], m[1..], true);
      assert m[1..] == Mask(optstring, args[1..]) && [] + rest == rest;
    } else {
      var w := Width(optstring, args);
      SplitIsStable(optstring, args[w..]);
      SplitConsumes(optstring, args);
      FrontIsPicked(args[..w], args[w..], m[..w], m[w..]);
      assert args == args[..w] + args[w..] && m == m[..w] + m[w..] && m[w..] == Mask(optstring, args[w..]);
    }
  }

  lemma FrontIsPicked(a: seq<string>, b: seq<string>, m: seq<bool>, k: seq<bool>)
    requires |a| == |m| && |b| == |k| && forall i | 0 <= i < |m| :: m[i]
    ensures Picked(a + b, m + k, true) == a + Picked(b, k, true) && Picked(a + b, m + k, false) == Picked(b, k, false)
  {
    PickedAll(a, m, true);
    PickedAppend(a, b, m, k, true);
    PickedAppend(a, b, m, k, false);
  }

  // ---- Scanning the result again ----

  /** The scan meets "--" where an option could stand. */
  predicate Stops(optstring: string, args: seq<string>)
    decreases |args|
  {
    args != [] &&
    (args[0] == "--" ||
     Stops(optstring, if IsNonOption(args[0]) then args[1..] else args[Width(optstring, args)..]))
  }

  /** The last argument is an option whose argument is missing. */
  predicate Dangling(optstring: string, args: seq<string>)
    decreases |args|
  {
    args != [] && args[0] != "--" &&
    if IsNonOption(args[0]) then Dangling(optstring, args[1..])
    else (|args| == 1 && TakesNext(optstring, args[0][1..])) || Dangling(optstring, args[Width(optstring, args)..])
  }

  /** o is what a scan takes to the front: option elements with their arguments, perhaps up to "--". */
  predicate IsFront(optstring: string, o: seq<string>)
    decreases |o|
  {
    o == [] || o == ["--"] ||
    (o[0] != "--" && !IsNonOption(o[0]) && IsFront(optstring, o[Width(optstring, o)..]))
  }

  lemma OptionStep(optstring: string, args: seq<string>)
    requires args != [] && args[0] != "--" && !IsNonOption(args[0])
    ensures var w := Width(optstring, args); var (o, n) := Split(optstring, args[w..]);
      Split(optstring, args) == (args[..w] + o, n) && (args[..w] + o)[0] == args[0] &&
      Width(optstring, args[..w] + o) == w && (args[..w] + o)[w..] == o && |args[..w] + o| >= w &&
      (|args[..w] + o| == 1 && TakesNext(optstring, args[0][1..]) <==>
        |args| == 1 && TakesNext(optstring, args[0][1..]))
  {
    SplitConsumes(optstring, args);
  }

  /** The front of a command line is a front; it stops and dangles as the whole does. */
  lemma {:induction false} FrontOfSplit(optstring: string, args: seq<string>)
    ensures var (o, n) := Split(optstring, args);
      IsFront(optstring, o) && Stops(optstring, o) == Stops(optstring, args) &&
      Dangling(optstring, o) == Dangling(optstring, args) &&
      (Stops(optstring, args) || forall a <- n :: IsNonOption(a)) && (n == [] ==> o == args)
    decreases |args|
  {
    if args == [] {
    } else if args[0] == "--" {
      assert args == ["--"] + args[1..];
    } else if IsNonOption(args[0]) {
      FrontOfSplit(optstring, args[1..]);
    } else {
      var w := Width(optstring, args);
      FrontOfSplit(optstring, args[w..]);
      OptionStep(optstring, args);
      assert args == args[..w] + args[w..];
    }
  }

  /** A front without a missing argument is found again in front of anything that is not scanned as an
      option; one with a missing argument takes the next element. */
  lemma {:induction false} FrontAgain(optstring: string, o: seq<string>, m: seq<string>)
    requires IsFront(optstring, o) && (Stops(optstring, o) || forall a <- m :: IsNonOption(a))
    ensures !Dangling(optstring, o) ==> Split(optstring, o + m) == (o, m)
    ensures Dangling(optstring, o) && m != [] ==> |Split(optstring, o + m).0| > |o|
    decreases |o|
  {
    if o == [] {
      assert o + m == m;
      AllNonOptions(optstring, m);
    } else if o == ["--"] {
      assert (o + m)[1..] == m;
    } else {
      var w := Width(optstring, o);
      FrontAgain(optstring, o[w..], m);
      SplitConsumes(optstring, o + m);
      if |o| == 1 && TakesNext(optstring, o[0][1..]) {
        assert m != [] ==> Width(optstring, o + m) == 2;
      } else {
        ElementInFront(optstring, o, m);
        assert o == o[..w] + o[w..];
      }
    }
  }

  lemma ElementInFront(optstring: string, o: seq<string>, m: seq<string>)
    requires o != [] && o[0] != "" && !(|o| == 1 && TakesNext(optstring, o[0][1..]))
    ensures var w := Width(optstring, o);
      Width(optstring, o + m) == w && (o + m)[..w] == o[..w] && (o + m)[w..] == o[w..] + m
  {
  }

  lemma {:induction false} AllNonOptions(optstring: string, m: seq<string>)
    requires forall a <- m :: IsNonOption(a)
    ensures Split(optstring, m) == ([], m)
  {
    if m != [] {
      assert m[0] in m && m[0] != "--" && forall a <- m[1..] :: a in m;
      AllNonOptions(optstring, m[1..]);
      assert m == [m[0]] + m[1..];
    }
  }

  /** Scanning the permuted arguments again gives the same two parts exactly if no option at the end of the
      line lacked its argument, or there is no non-option that it could now take for one. */
  lemma RescanExact(optstring: string, args: seq<string>)
    ensures var (o, n) := Split(optstring, args);
      Split(optstring, o + n) == (o, n) <==> !Dangling(optstring, args) || n == []
  {
    var (o, n) := Split(optstring, args);
    FrontOfSplit(optstring, args);
    FrontAgain(optstring, o, n);
    assert n == [] ==> o + n == args;
  }

  /** For instance: in "x -a", where -a takes an argument and lacks it, the permuted line is "-a x", and a
      second scan takes "x" for the argument. */
  lemma RescanWitness()
    ensures Dangling("a:", ["x", "-a"]) && Split("a:", ["x", "-a"]) == (["-a"], ["x"])
    ensures Split("a:", ["-a", "x"]) == (["-a", "x"], [])
  {
    var x, a := "x", "-a";
    assert a[1..] == "a" && TakesNext("a:", "a");
    var one, two, back := [a], [a, x], [x, a];
    assert one[1..] == [] && two[2..] == [] && back[1..] == one && one[..1] == one && two[..2] == two;
    assert Split("a:", one) == (one + [], []) && one + [] == one;
    assert Split("a:", back) == (one, [x] + []) && [x] + [] == [x];
    assert Split("a:", two) == (two + [], []) && two + [] == two;
  }
}
