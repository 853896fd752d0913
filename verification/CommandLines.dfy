/** What command lines say, independent of how lib/getopt.c scans them: a line is a row of words, each
    written as the conventions for short options allow, and the scan returns what the words say. */
module CommandLines {
  import opened Base
  import opened Getopt

  // ---- What an option string declares, by position ----

  predicate FirstAt(optstring: string, c: char, i: nat) {
    i < |optstring| && optstring[i] == c && forall j | 0 <= j < i :: optstring[j] != c
  }

  predicate ColonAt(optstring: string, i: nat) {
    i < |optstring| && optstring[i] == ':'
  }

  predicate IsUndeclared(optstring: string, c: char) {
    c == ':' || c !in optstring
  }

  /** A character with no colon behind its first occurrence. */
  predicate IsSwitch(optstring: string, c: char) {
    c != ':' && exists i | 0 <= i < |optstring| :: FirstAt(optstring, c, i) && !ColonAt(optstring, i + 1)
  }

  /** With exactly one. */
  predicate NeedsArgument(optstring: string, c: char) {
    c != ':' && exists i | 0 <= i < |optstring| ::
                  FirstAt(optstring, c, i) && ColonAt(optstring, i + 1) && !ColonAt(optstring, i + 2)
  }

  /** With two or more. */
  predicate MayHaveArgument(optstring: string, c: char) {
    c != ':' && exists i | 0 <= i < |optstring| ::
                  FirstAt(optstring, c, i) && ColonAt(optstring, i + 1) && ColonAt(optstring, i + 2)
  }

  lemma {:induction false} FirstOccurrence(optstring: string, c: char) returns (i: nat)
    requires c in optstring
    ensures FirstAt(optstring, c, i)
  {
    i := 0;
    while optstring[i] != c
      invariant i < |optstring| && c in optstring[i..] && forall j | 0 <= j < i :: optstring[j] != c
      decreases |optstring| - i
    {
      i := i + 1;
    }
  }

  lemma {:induction false} LookupAt(optstring: string, c: char, i: nat)
    requires c != ':' && FirstAt(optstring, c, i)
    ensures Lookup(optstring, c) ==
            if !ColonAt(optstring, i + 1) then NoArg
            else if !ColonAt(optstring, i + 2) then RequiredArg else OptionalArg
    decreases i
  {
    if i > 0 {
      LookupAt(optstring[1..], c, i - 1);
    }
  }

  lemma {:induction false} LookupNowhere(optstring: string, c: char)
    requires IsUndeclared(optstring, c)
    ensures Lookup(optstring, c) == Unknown
  {
    if c != ':' && optstring != "" {
      LookupNowhere(optstring[1..], c);
    }
  }

  /** Every character is of exactly one of the four kinds, and the scan takes it as what it is. */
  lemma LookupExact(optstring: string, c: char)
    ensures Lookup(optstring, c).Unknown? <==> IsUndeclared(optstring, c)
    ensures Lookup(optstring, c).NoArg? <==> IsSwitch(optstring, c)
    ensures Lookup(optstring, c).RequiredArg? <==> NeedsArgument(optstring, c)
    ensures Lookup(optstring, c).OptionalArg? <==> MayHaveArgument(optstring, c)
  {
    if IsUndeclared(optstring, c) {
      LookupNowhere(optstring, c);
    } else {
      var i := FirstOccurrence(optstring, c);
      LookupAt(optstring, c, i);
      assert forall j: nat :: FirstAt(optstring, c, j) ==> j == i;
    }
  }

  // ---- Words ----

  /** One or two elements of the line. cs are option characters without argument, in front of c in one
      element with it. */
  datatype Word =
    | Plain(a: string)                             // not an option
    | Flags(cs: string)                            // -cs
    | Joined(cs: string, c: char, v: string)       // -csc with the argument v behind it, as in -ofile
    | Separate(cs: string, c: char, v: string)     // -csc v
    | Bare(cs: string, c: char)                    // -csc without its optional argument

  /** How the line ends: there; in a mark with anything behind it; or in an option that lacks its argument. */
  datatype End = Nothing | Mark(rest: seq<string>) | Lacking(cs: string, c: char)

  predicate AreFlags(optstring: string, cs: string) {
    forall c <- cs :: IsSwitch(optstring, c) || IsUndeclared(optstring, c)
  }

  predicate IsProper(optstring: string, w: Word) {
    match w
    case Plain(a) => a == "" || a[0] != '-' || |a| == 1
    case Flags(cs) => cs != "" && cs != "-" && AreFlags(optstring, cs)
    case Joined(cs, c, v) =>
      AreFlags(optstring, cs) && v != "" && (NeedsArgument(optstring, c) || MayHaveArgument(optstring, c))
    case Separate(cs, c, _) => AreFlags(optstring, cs) && NeedsArgument(optstring, c) && !(cs == "" && c == '-')
    case Bare(cs, c) => AreFlags(optstring, cs) && MayHaveArgument(optstring, c) && !(cs == "" && c == '-')
  }

  predicate IsProperEnd(optstring: string, e: End) {
    e.Lacking? ==> AreFlags(optstring, e.cs) && NeedsArgument(optstring, e.c) && !(e.cs == "" && e.c == '-')
  }

  function Elements(w: Word): seq<string> {
    match w
    case Plain(a) => [a]
    case Flags(cs) => ["-" + cs]
    case Joined(cs, c, v) => ["-" + (cs + ([c] + v))]
    case Separate(cs, c, v) => ["-" + (cs + [c]), v]
    case Bare(cs, c) => ["-" + (cs + [c])]
  }

  function EndElements(e: End): seq<string> {
    match e
    case Nothing => []
    case Mark(rest) => ["--"] + rest
    case Lacking(cs, c) => ["-" + (cs + [c])]
  }

  function Line(ws: seq<Word>, e: End): seq<string> {
    if ws == [] then EndElements(e) else Elements(ws[0]) + Line(ws[1..], e)
  }

  // ---- What they say ----

  /** An undeclared character is answered with '?'. */
  function FlagOpt(optstring: string, c: char): Opt {
    Opt(if IsUndeclared(optstring, c) then '?' else c, None)
  }

  function FlagOpts(optstring: string, cs: string): seq<Opt> {
    if cs == "" then [] else [FlagOpt(optstring, cs[0])] + FlagOpts(optstring, cs[1..])
  }

  function Says(optstring: string, w: Word): seq<Opt> {
    match w
    case Plain(_) => []
    case Flags(cs) => FlagOpts(optstring, cs)
    case Joined(cs, c, v) => FlagOpts(optstring, cs) + [Opt(c, Some(v))]
    case Separate(cs, c, v) => FlagOpts(optstring, cs) + [Opt(c, Some(v))]
    case Bare(cs, c) => FlagOpts(optstring, cs) + [Opt(c, None)]
  }

  /** A missing argument is answered with ':' if the option string begins with it, and else with '?'. */
  function EndSays(optstring: string, e: End): seq<Opt> {
    if e.Lacking? then FlagOpts(optstring, e.cs) + [Opt(if ":" <= optstring then ':' else '?', None)] else []
  }

  function LineSays(optstring: string, ws: seq<Word>, e: End): seq<Opt> {
    if ws == [] then EndSays(optstring, e) else Says(optstring, ws[0]) + LineSays(optstring, ws[1..], e)
  }

  /** The elements of the options, and the mark. */
  function Fronts(ws: seq<Word>, e: End): seq<string> {
    if ws == [] then (if e.Mark? then ["--"] else EndElements(e))
    else (if ws[0].Plain? then [] else Elements(ws[0])) + Fronts(ws[1..], e)
  }

  /** The words that are no options, and what stands behind the mark. */
  function Rests(ws: seq<Word>, e: End): seq<string> {
    if ws == [] then (if e.Mark? then e.rest else [])
    else (if ws[0].Plain? then [ws[0].a] else []) + Rests(ws[1..], e)
  }

  // ---- The scan returns it ----

  lemma FlagStep(optstring: string, c: char, more: string, next: Option<string>)
    requires AreFlags(optstring, [c])
    ensures Elem(optstring, [c] + more, next) ==
            [FlagOpt(optstring, c)] + if more == "" then [] else Elem(optstring, more, next)
    ensures TakesNext(optstring, [c] + more) == TakesNext(optstring, more)
  {
    assert c in [c] && ([c] + more)[1..] == more;
    LookupExact(optstring, c);
    ElemStep(optstring, [c] + more, next, FlagOpt(optstring, c));
  }

  /** x is what getopt returns for the characters all, and takes tells whether they take the next element. */
  predicate Scans(optstring: string, all: string, next: Option<string>, x: seq<Opt>, takes: bool) {
    x == (if all == "" then [] else Elem(optstring, all, next)) && takes == TakesNext(optstring, all)
  }

  lemma ScansStep(optstring: string, c: char, more: string, next: Option<string>, x: seq<Opt>, takes: bool)
    requires AreFlags(optstring, [c]) && Scans(optstring, more, next, x, takes)
    ensures Scans(optstring, [c] + more, next, [FlagOpt(optstring, c)] + x, takes)
  {
    FlagStep(optstring, c, more, next);
  }

  lemma PutFirst<T>(c: T, rest: seq<T>, tail: seq<T>)
    ensures [c] + (rest + tail) == [c] + rest + tail
  {
  }

  lemma FlagsSplit(optstring: string, cs: string)
    requires AreFlags(optstring, cs) && cs != ""
    ensures AreFlags(optstring, [cs[0]]) && AreFlags(optstring, cs[1..]) && cs == [cs[0]] + cs[1..]
    ensures FlagOpts(optstring, cs) == [FlagOpt(optstring, cs[0])] + FlagOpts(optstring, cs[1..])
  {
    assert cs[0] in cs && forall d <- cs[1..] :: d in cs;
  }

  lemma {:induction false} ScansFlags(optstring: string, cs: string, tail: string, next: Option<string>,
      x: seq<Opt>, takes: bool)
    requires AreFlags(optstring, cs) && Scans(optstring, tail, next, x, takes)
    ensures Scans(optstring, cs + tail, next, FlagOpts(optstring, cs) + x, takes)
    decreases |cs|
  {
    if cs == "" {
      assert cs + tail == tail && FlagOpts(optstring, cs) + x == x;
    } else {
      var c, rest := cs[0], cs[1..];
      FlagsSplit(optstring, cs);
      ScansFlags(optstring, rest, tail, next, x, takes);
      ScansStep(optstring, c, rest + tail, next, FlagOpts(optstring, rest) + x, takes);
      PutFirst(c, rest, tail);
      PutFirst(FlagOpt(optstring, c), FlagOpts(optstring, rest), x);
    }
  }

  lemma ElemOfFlags(optstring: string, cs: string, tail: string, next: Option<string>)
    requires AreFlags(optstring, cs) && cs + tail != ""
    ensures Elem(optstring, cs + tail, next) ==
            FlagOpts(optstring, cs) + if tail == "" then [] else Elem(optstring, tail, next)
    ensures TakesNext(optstring, cs + tail) == TakesNext(optstring, tail)
  {
    var x := if tail == "" then [] else Elem(optstring, tail, next);
    ScansFlags(optstring, cs, tail, next, x, TakesNext(optstring, tail));
  }

  /** An element that consists of flags and perhaps c with what follows it. */
  lemma OptionElement(optstring: string, cs: string, tail: string, rest: seq<string>)
    requires AreFlags(optstring, cs) && cs + tail != "" && cs + tail != "-"
    ensures var args := ["-" + (cs + tail)] + rest;
      args[0] != "--" && !IsNonOption(args[0]) && args[0][1..] == cs + tail &&
      (TakesNext(optstring, tail) == TakesNext(optstring, args[0][1..])) &&
      Elem(optstring, args[0][1..], Second(args)) ==
        FlagOpts(optstring, cs) + if tail == "" then [] else Elem(optstring, tail, Second(args))
  {
    var args := ["-" + (cs + tail)] + rest;
    assert args[0][1..] == cs + tail && "--"[1..] == "-";
    ElemOfFlags(optstring, cs, tail, Second(args));
  }

  lemma OneElement(optstring: string, args: seq<string>, rest: seq<string>)
    requires args != [] && args[1..] == rest && args[0] != "--" && !IsNonOption(args[0])
    requires !TakesNext(optstring, args[0][1..])
    ensures Options(optstring, args) == Elem(optstring, args[0][1..], Second(args)) + Options(optstring, rest)
    ensures var (o, n) := Split(optstring, rest); Split(optstring, args) == ([args[0]] + o, n)
  {
    assert Width(optstring, args) == 1 && args[..1] == [args[0]];
    OptionsOfElement(optstring, args);
    SplitConsumes(optstring, args);
  }

  lemma OptionIsScanned(optstring: string, cs: string, tail: string, rest: seq<string>)
    requires AreFlags(optstring, cs) && cs + tail != "" && cs + tail != "-" && !TakesNext(optstring, tail)
    ensures var args := ["-" + (cs + tail)] + rest; var (o, n) := Split(optstring, rest);
      Options(optstring, args) ==
        (FlagOpts(optstring, cs) + if tail == "" then [] else Elem(optstring, tail, Second(args)))
        + Options(optstring, rest) &&
      Split(optstring, args) == (["-" + (cs + tail)] + o, n)
  {
    OptionElement(optstring, cs, tail, rest);
    OneElement(optstring, ["-" + (cs + tail)] + rest, rest);
  }

  lemma SeparateIsScanned(optstring: string, cs: string, c: char, v: string, rest: seq<string>)
    requires IsProper(optstring, Separate(cs, c, v))
    ensures var args, w := ["-" + (cs + [c]), v] + rest, Separate(cs, c, v); var (o, n) := Split(optstring, rest);
      Options(optstring, args) == Says(optstring, w) + Options(optstring, rest) &&
      Split(optstring, args) == (Elements(w) + o, n)
  {
    var args := ["-" + (cs + [c]), v] + rest;
    LookupExact(optstring, c);
    assert (cs + [c])[|cs|] == c && |cs + [c]| == |cs| + 1;
    OptionElement(optstring, cs, [c], [v] + rest);
    assert args == ["-" + (cs + [c])] + ([v] + rest);
    assert args[..2] == ["-" + (cs + [c]), v] && args[2..] == rest && Width(optstring, args) == 2;
    OptionsOfElement(optstring, args);
    SplitConsumes(optstring, args);
  }

  /** In front of any arguments, a word is scanned as what it says, and goes to the front or stays behind. */
  lemma WordIsScanned(optstring: string, w: Word, rest: seq<string>)
    requires IsProper(optstring, w)
    ensures Options(optstring, Elements(w) + rest) == Says(optstring, w) + Options(optstring, rest)
    ensures var (o, n) := Split(optstring, rest);
      Split(optstring, Elements(w) + rest) == if w.Plain? then (o, [w.a] + n) else (Elements(w) + o, n)
  {
    var args := Elements(w) + rest;
    match w {
      case Plain(a) =>
        assert args[1..] == rest && IsNonOption(a) && a != "--";
        assert Says(optstring, w) + Options(optstring, rest) == Options(optstring, rest);
      case Flags(cs) =>
        assert cs + "" == cs && FlagOpts(optstring, cs) + [] == FlagOpts(optstring, cs);
        OptionIsScanned(optstring, cs, "", rest);
      case Joined(cs, c, v) =>
        LookupExact(optstring, c);
        assert ([c] + v)[1..] == v;
        OptionIsScanned(optstring, cs, [c] + v, rest);
      case Separate(cs, c, v) =>
        SeparateIsScanned(optstring, cs, c, v, rest);
      case Bare(cs, c) =>
        LookupExact(optstring, c);
        assert (cs + [c])[|cs|] == c && |cs + [c]| == |cs| + 1;
        OptionIsScanned(optstring, cs, [c], rest);
    }
  }

  lemma EndIsScanned(optstring: string, e: End)
    requires IsProperEnd(optstring, e)
    ensures Options(optstring, EndElements(e)) == EndSays(optstring, e)
    ensures Split(optstring, EndElements(e)) == (Fronts([], e), Rests([], e))
  {
    if e.Lacking? {
      var args := EndElements(e);
      LookupExact(optstring, e.c);
      assert (e.cs + [e.c])[|e.cs|] == e.c && |e.cs + [e.c]| == |e.cs| + 1;
      OptionElement(optstring, e.cs, [e.c], []);
      assert args == ["-" + (e.cs + [e.c])] + [] && Width(optstring, args) == 1 && args[1..] == [] && args[..1] == args;
      OptionsOfElement(optstring, args);
      SplitConsumes(optstring, args);
      assert Options(optstring, args[1..]) == [] && Split(optstring, args[1..]) == ([], []);
    } else if e.Mark? {
      assert EndElements(e)[1..] == e.rest;
    }
  }

  /** A line of proper words is scanned as what its words say, in order, and permuted into its options and
      the rest. */
  lemma {:induction false} LineIsScanned(optstring: string, ws: seq<Word>, e: End)
    requires (forall w <- ws :: IsProper(optstring, w)) && IsProperEnd(optstring, e)
    ensures Options(optstring, Line(ws, e)) == LineSays(optstring, ws, e)
    ensures Split(optstring, Line(ws, e)) == (Fronts(ws, e), Rests(ws, e))
  {
    if ws == [] {
      EndIsScanned(optstring, e);
    } else {
      assert ws[0] in ws && forall w <- ws[1..] :: w in ws;
      LineIsScanned(optstring, ws[1..], e);
      WordIsScanned(optstring, ws[0], Line(ws[1..], e));
      var o, n := Fronts(ws[1..], e), Rests(ws[1..], e);
      assert [] + o == o && [] + n == n;
    }
  }

  lemma {:induction false} FlagsInFront(optstring: string, chars: string) returns (cs: string, tail: string)
    ensures chars == cs + tail && AreFlags(optstring, cs) && (tail != "" ==> !AreFlags(optstring, [tail[0]]))
  {
    if chars == "" || !AreFlags(optstring, [chars[0]]) {
      cs, tail := "", chars;
    } else {
      cs, tail := FlagsInFront(optstring, chars[1..]);
      assert chars[0] in [chars[0]];
      cs := [chars[0]] + cs;
    }
  }

  /** The first element, if it is an option, is a proper word with or without the element behind it, or the
      lack of an argument. */
  lemma FirstWord(optstring: string, args: seq<string>) returns (w: Option<Word>, e: End, rest: seq<string>)
    requires args != [] && args[0] != "--" && !IsNonOption(args[0])
    ensures |rest| < |args|
    ensures if w.Some? then IsProper(optstring, w.value) && Elements(w.value) + rest == args
            else IsProperEnd(optstring, e) && EndElements(e) == args
  {
    var cs, tail := FlagsInFront(optstring, args[0][1..]);
    assert args[0] == "-" + (cs + tail) && args == [args[0]] + args[1..];
    w, e, rest := None, Nothing, args[1..];
    if tail == "" {
      assert cs + tail == cs;
      w := Some(Flags(cs));
    } else {
      var c, v := tail[0], tail[1..];
      assert tail == [c] + v && c in [c];
      LookupExact(optstring, c);
      if v != "" {
        w := Some(Joined(cs, c, v));
      } else {
        assert tail == [c];
        if MayHaveArgument(optstring, c) {
          w := Some(Bare(cs, c));
        } else if |args| > 1 {
          w, rest := Some(Separate(cs, c, args[1])), args[2..];
          assert args == [args[0], args[1]] + rest;
        } else {
          e := Lacking(cs, c);
        }
      }
    }
  }

  /** And every line is made of proper words. */
  lemma {:induction false} EveryLine(optstring: string, args: seq<string>) returns (ws: seq<Word>, e: End)
    ensures (forall w <- ws :: IsProper(optstring, w)) && IsProperEnd(optstring, e) && Line(ws, e) == args
    decreases |args|
  {
    if args == [] {
      ws, e := [], Nothing;
    } else if args[0] == "--" {
      ws, e := [], Mark(args[1..]);
    } else {
      var w, rest := Some(Plain(args[0])), args[1..];
      e := Nothing;
      if !IsNonOption(args[0]) {
        w, e, rest := FirstWord(optstring, args);
      }
      ws := [];
      if w.Some? {
        ws, e := EveryLine(optstring, rest);
        var first := w.value;
        assert Elements(first) + rest == args;
        assert ([first] + ws)[1..] == ws;
        ws := [first] + ws;
      }
    }
  }
}
