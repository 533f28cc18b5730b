// The permuting option scanner of pc/hid_bootloader/getopt.c, on the path that getopt()
// takes: no long options, PERMUTE ordering, an option string that starts with neither
// '+' nor '-' and does not contain "W;".

/** What a scan of an argument vector should find, read off the vector from left to right. */
module GetoptSpec {

  datatype Option<T> = None | Some(value: T)

  /** What one call reports: the returned character, the argument and the value of optopt. */
  datatype Event = Event(ret: char, arg: Option<string>, optopt: char)

  /** Everything a scan yields: the events, the elements used up as options, the other elements. */
  datatype Parse = Parse(events: seq<Event>, opts: seq<string>, others: seq<string>)

  predicate IsNonOption(arg: string) {
    |arg| < 2 || arg[0] != '-'
  }

  /** The part of the option string from the first occurrence of c, or the empty string. */
  function Declared(optstring: string, c: char): string {
    if optstring == "" then ""
    else if optstring[0] == c then optstring
    else Declared(optstring[1..], c)
  }

  /** c occurs in s exactly if something is found, which begins with the first occurrence and goes on to the end. */
  lemma {:induction false} DeclaredIsFirst(s: string, c: char)
    ensures Declared(s, c) == "" <==> c !in s
    ensures c in s ==>
      var d := Declared(s, c);
      d[0] == c && |d| <= |s| && s == s[..|s| - |d|] + d && c !in s[..|s| - |d|]
  {
    if s != "" && s[0] != c {
      var rest := s[1..];
      DeclaredIsFirst(rest, c);
      InFront(s[0], rest, Declared(rest, c), c);
      assert s == [s[0]] + rest;
    }
  }

  lemma InFront(first: char, rest: string, found: string, c: char)
    requires first != c
    ensures c in [first] + rest <==> c in rest
    ensures |found| <= |rest| && rest == rest[..|rest| - |found|] + found && c !in rest[..|rest| - |found|] ==>
      var s := [first] + rest; s == s[..|s| - |found|] + found && c !in s[..|s| - |found|]
  {
    if |found| <= |rest| && rest == rest[..|rest| - |found|] + found {
      var s, n := [first] + rest, |rest| - |found|;
      assert s[..n + 1] == [first] + rest[..n];
      assert s == [first] + (rest[..n] + found) == ([first] + rest[..n]) + found;
    }
  }

  /** The option strings modelled: PERMUTE ordering, and the first 'W' is not followed by ';'. */
  predicate Supported(optstring: string) {
    && (optstring != "" ==> optstring[0] != '+' && optstring[0] != '-')
    && forall i :: 0 < i < |optstring| && optstring[i] == ';' && optstring[i - 1] == 'W' ==> 'W' in optstring[..i - 1]
  }

  /** How an option takes an argument. */
  datatype Kind = Unknown | Plain | Optional | Required

  function KindOf(optstring: string, c: char): Kind {
    var d := Declared(optstring, c);
    if d == "" || c == ':' then Unknown
    else if |d| > 1 && d[1] == ':' then
      if |d| > 2 && d[2] == ':' then Optional else Required
    else Plain
  }

  /** What is reported when a required argument is missing. */
  function MissingReply(optstring: string): char {
    if optstring != "" && optstring[0] == ':' then ':' else '?'
  }

  function AddOther(arg: string, p: Parse): Parse {
    p.(others := [arg] + p.others)
  }

  function AddOpts(args: seq<string>, p: Parse): Parse {
    p.(opts := args + p.opts)
  }

  function AddEvent(e: Event, p: Parse): Parse {
    p.(events := [e] + p.events)
  }

  /** The parse of the elements in args. */
  function Scan(args: seq<string>, optstring: string, optopt: char): Parse
    decreases |args|, 2
  {
    if args == [] then Parse([], [], [])
    else if args[0] == "--" then Parse([], [args[0]], args[1..])
    else if IsNonOption(args[0]) then AddOther(args[0], Scan(args[1..], optstring, optopt))
    else ScanCluster(args[0][1..], args, optstring, optopt)
  }

  /** The parse that continues inside the option element args[0], of which chars is still unread. */
  function ScanCluster(chars: string, args: seq<string>, optstring: string, optopt: char): Parse
    requires chars != "" && args != []
    decreases |args|, 1, |chars|, 0
  {
    var c, rest := chars[0], chars[1..];
    match KindOf(optstring, c)
    case Unknown => AddEvent(Event('?', None, c), ScanRest(rest, args, optstring, c))
    case Plain => AddEvent(Event(c, None, optopt), ScanRest(rest, args, optstring, optopt))
    case _ => ScanArgument(c, rest, args, optstring, optopt)
  }

  /** The parse from the option c that takes an argument, with rest behind it in the same element. */
  function ScanArgument(c: char, rest: string, args: seq<string>, optstring: string, optopt: char): Parse
    requires args != []
    decreases |args|, 0
  {
    if rest != "" || KindOf(optstring, c) == Optional then
      AddEvent(Event(c, if rest == "" then None else Some(rest), optopt),
               AddOpts([args[0]], Scan(args[1..], optstring, optopt)))
    else if |args| == 1 then
      AddEvent(Event(MissingReply(optstring), None, c), Parse([], [args[0]], []))
    else
      AddEvent(Event(c, Some(args[1]), optopt), AddOpts([args[0], args[1]], Scan(args[2..], optstring, optopt)))
  }

  /** The parse after one option character: the same element while it has characters left. */
  function ScanRest(rest: string, args: seq<string>, optstring: string, optopt: char): Parse
    requires args != []
    decreases |args|, 1, |rest|, 1
  {
    if rest != "" then ScanCluster(rest, args, optstring, optopt)
    else AddOpts([args[0]], Scan(args[1..], optstring, optopt))
  }
}

/** The scanner itself: static variables that survive from one call to the next. */
module Getopt {
  import opened GetoptSpec
  import opened Multiples

  class Scanner {
    var optarg: Option<string>
    var optind: nat
    var optopt: char
    var initialized: bool
    /** The unread rest of the current element; "" also stands for the null pointer. */
    var nextchar: string
    /** argv[firstNonopt..lastNonopt] holds the non-options skipped so far. */
    var firstNonopt: nat
    var lastNonopt: nat

    constructor ()
      ensures IsFresh() && optind == 1 && optopt == '?'
    {
      optarg, optind, optopt, initialized := None, 1, '?', false;
      nextchar, firstNonopt, lastNonopt := "", 0, 0;
    }

    /** The next call starts a new scan. */
    ghost predicate IsFresh()
      reads this
    {
      optind <= 1 && (optind == 0 || !initialized)
    }

    /** Between two calls: orig is the vector before the scan began. */
    ghost predicate Scanning(argv: array<string>, orig: seq<string>)
      reads this, argv
    {
      && initialized
      && argv.Length == |orig|
      && 1 <= firstNonopt <= lastNonopt <= optind <= argv.Length
      && argv[0] == orig[0]
      && argv[optind..] == orig[optind..]
      && (nextchar != "" ==> optind < argv.Length)
    }

    ghost predicate Valid(argv: array<string>, orig: seq<string>)
      reads this, argv
    {
      if IsFresh() then argv[..] == orig else Scanning(argv, orig)
    }

    /** What the whole scan will have yielded, as far as the elements are concerned. */
    ghost function Total(argv: array<string>, orig: seq<string>, optstring: string): Parse
      requires Valid(argv, orig) && argv.Length > 0
      reads this, argv
    {
      if IsFresh() then Scan(orig[1..], optstring, optopt)
      else TotalOf(argv[..], orig, firstNonopt, lastNonopt, optind, nextchar, optstring, optopt)
    }

    /** The scan is over: the options come first, then the rest. */
    ghost predicate Done(argv: array<string>, orig: seq<string>, total: Parse)
      reads this, argv
    {
      |orig| > 0 && argv[..] == [orig[0]] + total.opts + total.others && optind == 1 + |total.opts|
    }

    /**
     * One call of getopt. A returned character is the next event of the scan; None (the -1
     * of the source) comes exactly when no event is left, and then argv has been permuted.
     */
    method GetOpt(argv: array<string>, optstring: string, ghost orig: seq<string>) returns (ret: Option<char>)
      requires Valid(argv, orig) && Supported(optstring)
      modifies this, argv
      ensures argv.Length == 0 ==> ret == None && optind == old(optind) && optarg == old(optarg)
      ensures argv.Length > 0 && ret.Some? ==>
        && Scanning(argv, orig)
        && old(Total(argv, orig, optstring)) == AddEvent(Event(ret.value, optarg, optopt), Total(argv, orig, optstring))
      ensures argv.Length > 0 && ret.None? ==>
        && optarg == None
        && old(Total(argv, orig, optstring)).events == []
        && Done(argv, orig, old(Total(argv, orig, optstring)))
    {
      if argv.Length < 1 {
        return None;
      }
      optarg := None;
      if optind == 0 || !initialized {
        Initialize(argv, optstring, orig);
      }
      if nextchar == "" {
        var finished := Advance(argv, optstring, orig);
        if finished {
          return None;
        }
      }
      var c := ShortOption(argv, optstring, orig);
      return Some(c);
    }

    /** Starts a scan at argv[1]: no non-option has been skipped yet. */
    method Initialize(argv: array<string>, optstring: string, ghost orig: seq<string>)
      requires argv.Length > 0 && argv[..] == orig && IsFresh()
      modifies this`nextchar, this`optind, this`firstNonopt, this`lastNonopt, this`initialized
      ensures Scanning(argv, orig) && nextchar == ""
      ensures Total(argv, orig, optstring) == old(Total(argv, orig, optstring))
    {
      if optind == 0 {
        optind := 1;
      }
      firstNonopt, lastNonopt := optind, optind;
      nextchar := "";
      initialized := true;
    }

    /** Moves on to the next option element; true when there is none. */
    method Advance(argv: array<string>, optstring: string, ghost orig: seq<string>) returns (finished: bool)
      requires argv.Length > 0 && Scanning(argv, orig) && nextchar == ""
      modifies this`nextchar, this`optind, this`firstNonopt, this`lastNonopt, argv
      ensures finished ==>
        old(Total(argv, orig, optstring)).events == [] && Done(argv, orig, old(Total(argv, orig, optstring)))
      ensures !finished ==>
        && Scanning(argv, orig) && nextchar != ""
        && Total(argv, orig, optstring) == old(Total(argv, orig, optstring))
    {
      Regroup(argv, optstring, orig);
      if optind != argv.Length && argv[optind] == "--" {
        TakeTerminator(argv, optstring, orig);
      }
      if optind == argv.Length {
        Whole(argv[..], firstNonopt);
        if firstNonopt != lastNonopt {
          optind := firstNonopt;
        }
        return true;
      }
      OptionElement(argv[..], orig, optind, optstring, optopt);
      nextchar := argv[optind][1..];
      return false;
    }

    /**
     * Moves options met after skipped non-options in front of them. The caller may have
     * moved optind back, which cuts the record of skipped non-options short.
     */
    method MoveOptionsForward(argv: array<string>)
      requires firstNonopt <= lastNonopt && optind <= argv.Length
      modifies this`firstNonopt, this`lastNonopt, argv
      ensures var first, last := Min(old(firstNonopt), optind), Min(old(lastNonopt), optind);
        && argv[..] == Rotated(old(argv[..]), first, last, optind)
        && firstNonopt == first + (optind - last)
    {
      if lastNonopt > optind {
        lastNonopt := optind;
      }
      if firstNonopt > optind {
        firstNonopt := optind;
      }
      if firstNonopt != lastNonopt && lastNonopt != optind {
        Exchange(argv);
      } else if lastNonopt != optind {
        RotatedTrivially(argv[..], firstNonopt, lastNonopt, optind);
        firstNonopt := optind;
      } else {
        RotatedTrivially(argv[..], firstNonopt, lastNonopt, optind);
      }
    }

    /** Groups the options met so far in front, then skips the non-options at optind. */
    method Regroup(argv: array<string>, optstring: string, ghost orig: seq<string>)
      requires argv.Length > 0 && Scanning(argv, orig) && nextchar == ""
      modifies this`optind, this`firstNonopt, this`lastNonopt, argv
      ensures Scanning(argv, orig) && lastNonopt == optind
      ensures Total(argv, orig, optstring) == old(Total(argv, orig, optstring))
      ensures optind < argv.Length ==> !IsNonOption(argv[optind])
      ensures optind == argv.Length ==> AtEnd(argv, orig, old(Total(argv, orig, optstring)))
    {
      hide Rotated, Scan, Combine, AddOthers, TotalOf;
      ghost var was, start := argv[..], optind;
      ghost var first0, last0 := firstNonopt, lastNonopt;
      MoveOptionsForward(argv);
      ghost var first, s := firstNonopt, argv[..];
      GroupedTotal(was, orig, first0, last0, start, optstring, optopt);
      while optind < argv.Length && IsNonOption(argv[optind])
        invariant start <= optind <= argv.Length
        invariant firstNonopt == first && argv[..] == s
        invariant 1 <= first <= start && s[optind..] == orig[optind..]
        invariant TotalOf(s, orig, first, optind, optind, "", optstring, optopt)
               == TotalOf(was, orig, first0, last0, start, "", optstring, optopt)
      {
        SkippedTotal(s, orig, first, optind, optstring, optopt);
        optind := optind + 1;
      }
      lastNonopt := optind;
      if optind == argv.Length {
        EndTotal(s, orig, first, optstring, optopt);
      }
    }

    /** Every element has been scanned, and the options are in front. */
    ghost predicate AtEnd(argv: array<string>, orig: seq<string>, total: Parse)
      reads this, argv
    {
      && 1 <= firstNonopt <= lastNonopt == optind == argv.Length == |orig|
      && argv[0] == orig[0]
      && total == Parse([], argv[1..firstNonopt], argv[firstNonopt..])
    }

    /** The element "--" ends the options: it is one itself, and everything after it is not. */
    method TakeTerminator(argv: array<string>, optstring: string, ghost orig: seq<string>)
      requires argv.Length > 0 && Scanning(argv, orig) && nextchar == "" && lastNonopt == optind
      requires optind < argv.Length && argv[optind] == "--"
      modifies this`optind, this`firstNonopt, this`lastNonopt, argv
      ensures AtEnd(argv, orig, old(Total(argv, orig, optstring)))
    {
      hide Rotated, TotalOf;
      TerminatorTotal(argv[..], orig, firstNonopt, optind, optstring, optopt);
      optind := optind + 1;
      if firstNonopt != lastNonopt && lastNonopt != optind {
        Exchange(argv);
      } else if firstNonopt == lastNonopt {
        RotatedTrivially(argv[..], firstNonopt, lastNonopt, optind);
        firstNonopt := optind;
      }
      lastNonopt := argv.Length;
      optind := argv.Length;
    }

    /** Decodes the next character of the current option element. */
    method ShortOption(argv: array<string>, optstring: string, ghost orig: seq<string>) returns (c: char)
      requires argv.Length > 0 && Scanning(argv, orig) && nextchar != "" && optarg == None
      modifies this`nextchar, this`optind, this`optarg, this`optopt
      ensures Scanning(argv, orig)
      ensures old(Total(argv, orig, optstring)) == AddEvent(Event(c, optarg, optopt), Total(argv, orig, optstring))
    {
      hide Scan, Combine, AddEvent, Declared, TotalOf, ScanRest;
      ghost var s, i, args := argv[..], optind, orig[optind..];
      TotalWithin(s, orig, firstNonopt, lastNonopt, i, nextchar, optstring, optopt);
      c := nextchar[0];
      nextchar := nextchar[1..];
      var declared := Declared(optstring, c);
      if nextchar == "" {
        optind := optind + 1;
      }
      AfterOne(s, orig, i);
      if declared == "" || c == ':' {
        optopt := c;
        c := '?';
        TotalAfterChar(s, orig, firstNonopt, lastNonopt, i, nextchar, optstring, optopt);
      } else if |declared| > 1 && declared[1] == ':' {
        c := TakeArgument(argv, optstring, c, |declared| > 2 && declared[2] == ':', orig, i);
        return;
      } else {
        TotalAfterChar(s, orig, firstNonopt, lastNonopt, i, nextchar, optstring, optopt);
      }
      CombineEvent(s[1..firstNonopt] + s[lastNonopt..i], s[firstNonopt..lastNonopt], Event(c, optarg, optopt),
                   ScanRest(nextchar, args, optstring, optopt));
    }

    /** Finds the argument of the option c, which is the last character read from the element at i. */
    method TakeArgument(argv: array<string>, optstring: string, c: char, optional: bool, ghost orig: seq<string>,
                        ghost i: nat)
      returns (ret: char)
      requires argv.Length == |orig| && 1 <= firstNonopt <= lastNonopt <= i < argv.Length
      requires initialized && argv[0] == orig[0] && argv[i..] == orig[i..]
      requires optind == (if nextchar == "" then i + 1 else i) && optarg == None
      requires KindOf(optstring, c) == if optional then Optional else Required
      modifies this`nextchar, this`optind, this`optarg, this`optopt
      ensures Scanning(argv, orig)
      ensures Combine(argv[1..firstNonopt] + argv[lastNonopt..i], argv[firstNonopt..lastNonopt],
                      ScanArgument(c, old(nextchar), orig[i..], optstring, old(optopt)))
           == AddEvent(Event(ret, optarg, optopt), Total(argv, orig, optstring))
    {
      hide Scan, Combine, AddOpts, AddEvent, TotalOf, KindOf;
      ghost var s, args := argv[..], orig[i..];
      ghost var opts, others := s[1..firstNonopt] + s[lastNonopt..i], s[firstNonopt..lastNonopt];
      TotalAfterElement(s, orig, firstNonopt, lastNonopt, i, optstring, optopt);
      ret := c;
      if optional {
        if nextchar != "" {
          optarg := Some(nextchar);
          optind := optind + 1;
        } else {
          optarg := None;
        }
        nextchar := "";
        CombineEvent(opts, others, Event(ret, optarg, optopt), AddOpts([args[0]], Scan(args[1..], optstring, optopt)));
      } else {
        if nextchar != "" {
          optarg := Some(nextchar);
          optind := optind + 1;
          CombineEvent(opts, others, Event(ret, optarg, optopt),
                       AddOpts([args[0]], Scan(args[1..], optstring, optopt)));
        } else if optind == argv.Length {
          optopt := c;
          ret := if optstring != "" && optstring[0] == ':' then ':' else '?';
          LastElement(args, optstring, optopt);
          TotalAfterElement(s, orig, firstNonopt, lastNonopt, i, optstring, optopt);
          CombineEvent(opts, others, Event(ret, optarg, optopt), Parse([], [args[0]], []));
        } else {
          optarg := Some(argv[optind]);
          optind := optind + 1;
          TotalAfterTwo(s, orig, firstNonopt, lastNonopt, i, optstring, optopt);
          CombineEvent(opts, others, Event(ret, optarg, optopt),
                       AddOpts([args[0], args[1]], Scan(args[2..], optstring, optopt)));
        }
        nextchar := "";
      }
    }

    /** Swaps the non-options with the options that follow them, block by block, in place. */
    method Exchange(argv: array<string>)
      requires firstNonopt <= lastNonopt <= optind <= argv.Length
      modifies argv, this`firstNonopt, this`lastNonopt
      ensures argv[..] == Rotated(old(argv[..]), old(firstNonopt), old(lastNonopt), optind)
      ensures firstNonopt == old(firstNonopt) + (optind - old(lastNonopt)) && lastNonopt == optind
    {
      hide Rotated, BlocksSwapped;
      var bottom: nat, middle: nat, top: nat := firstNonopt, lastNonopt, optind;
      while top > middle && middle > bottom
        invariant bottom <= middle <= top <= argv.Length
        invariant Rotated(argv[..], bottom, middle, top)
          == Rotated(old(argv[..]), old(firstNonopt), old(lastNonopt), optind)
        invariant firstNonopt == old(firstNonopt) && lastNonopt == old(lastNonopt)
        decreases top - bottom
      {
        if top - middle > middle - bottom {
          var len: nat := middle - bottom;
          RotateShortBottom(argv[..], bottom, middle, top);
          SwapBlocks(argv, bottom, top - len, len);
          top := top - len;
        } else {
          var len: nat := top - middle;
          RotateShortTop(argv[..], bottom, middle, top);
          SwapBlocks(argv, bottom, middle, len);
          bottom := bottom + len;
        }
      }
      RotatedTrivially(argv[..], bottom, middle, top);
      firstNonopt := firstNonopt + (optind - lastNonopt);
      lastNonopt := optind;
    }

    /** Swaps the elements of two disjoint blocks of the same length. */
    method SwapBlocks(argv: array<string>, a: nat, b: nat, len: nat)
      requires a + len <= b && b + len <= argv.Length
      modifies argv
      ensures argv[..] == BlocksSwapped(old(argv[..]), a, b, len)
    {
      hide BlocksSwapped;
      ghost var was := argv[..];
      var i := 0;
      while i < len
        invariant 0 <= i <= len
        invariant forall k :: a <= k < a + i ==> argv[k] == was[k + (b - a)]
        invariant forall k :: b <= k < b + i ==> argv[k] == was[k - (b - a)]
        invariant forall k :: 0 <= k < argv.Length && !(a <= k < a + i) && !(b <= k < b + i) ==> argv[k] == was[k]
      {
        argv[a + i], argv[b + i] := argv[b + i], argv[a + i];
        i := i + 1;
      }
      SwappedElements(was, argv[..], a, b, len);
    }
  }

  lemma AppendEvent(events: seq<Event>, e: Event, p: Parse)
    ensures events + AddEvent(e, p).events == (events + [e]) + p.events
  {
  }

  /** Calls getopt until it returns -1, as parse_args does, and collects what it reports. */
  method ScanAll(argv: array<string>, optstring: string) returns (events: seq<Event>, optind: nat)
    requires Supported(optstring)
    modifies argv
    ensures argv.Length > 0 ==>
      var p := Scan(old(argv[1..]), optstring, '?');
      events == p.events && argv[..] == [old(argv[0])] + p.opts + p.others && optind == 1 + |p.opts|
    ensures argv.Length == 0 ==> events == [] && optind == 1
  {
    hide Scan, TotalOf, Rotated;
    var scanner := new Scanner();
    ghost var orig := argv[..];
    events := [];
    assert argv.Length > 0 ==> orig[1..] == argv[1..];
    ghost var total := if argv.Length == 0 then Parse([], [], []) else scanner.Total(argv, orig, optstring);
    while true
      invariant fresh(scanner) && scanner.Valid(argv, orig)
      invariant argv.Length == 0 ==> events == [] && scanner.optind == 1
      invariant argv.Length > 0 ==>
        var now := scanner.Total(argv, orig, optstring);
        total == Parse(events + now.events, now.opts, now.others)
      decreases if argv.Length == 0 then 0 else |scanner.Total(argv, orig, optstring).events|
    {
      var ret := scanner.GetOpt(argv, optstring, orig);
      if ret == None {
        return events, scanner.optind;
      }
      if argv.Length > 0 {
        AppendEvent(events, Event(ret.value, scanner.optarg, scanner.optopt), scanner.Total(argv, orig, optstring));
      }
      events := events + [Event(ret.value, scanner.optarg, scanner.optopt)];
    }
  }

  function AddOthers(args: seq<string>, p: Parse): Parse {
    p.(others := args + p.others)
  }

  lemma Whole(s: seq<string>, first: nat)
    requires 1 <= first <= |s|
    ensures s == [s[0]] + s[1..first] + s[first..]
  {
  }

  /** The parse p of the rest, put together with the elements met before it. */
  function Combine(opts: seq<string>, others: seq<string>, p: Parse): Parse {
    Parse(p.events, opts + p.opts, others + p.others)
  }

  /**
   * What the whole scan will have yielded when the vector s has been scanned up to i, with
   * s[first..last] the non-options skipped so far and chars the unread rest of element i.
   */
  function TotalOf(s: seq<string>, orig: seq<string>, first: nat, last: nat, i: nat, chars: string,
                   optstring: string, optopt: char): Parse
    requires 1 <= first <= last <= i <= |s| == |orig| && (chars != "" ==> i < |orig|)
  {
    Combine(s[1..first] + s[last..i], s[first..last],
            if chars == "" then Scan(orig[i..], optstring, optopt)
            else ScanCluster(chars, orig[i..], optstring, optopt))
  }

  lemma CombineEvent(opts: seq<string>, others: seq<string>, e: Event, p: Parse)
    ensures Combine(opts, others, AddEvent(e, p)) == AddEvent(e, Combine(opts, others, p))
  {
  }

  lemma LastElement(args: seq<string>, optstring: string, optopt: char)
    requires |args| == 1
    ensures AddOpts([args[0]], Scan(args[1..], optstring, optopt)) == Parse([], [args[0]], [])
  {
  }

  lemma AfterOne(s: seq<string>, orig: seq<string>, i: nat)
    requires i < |s| == |orig| && s[i..] == orig[i..]
    ensures s[i + 1..] == orig[i + 1..]
  {
  }

  /** The element at i has been used up. */
  lemma TotalAfterElement(s: seq<string>, orig: seq<string>, first: nat, last: nat, i: nat, optstring: string,
                          optopt: char)
    requires 1 <= first <= last <= i < |s| == |orig| && s[i..] == orig[i..]
    ensures s[i + 1..] == orig[i + 1..] && s[i] == orig[i..][0]
    ensures TotalOf(s, orig, first, last, i + 1, "", optstring, optopt)
         == Combine(s[1..first] + s[last..i], s[first..last],
                    AddOpts([orig[i..][0]], Scan(orig[i..][1..], optstring, optopt)))
  {
  }

  /** The element at i and the one after it have been used up. */
  lemma TotalAfterTwo(s: seq<string>, orig: seq<string>, first: nat, last: nat, i: nat, optstring: string, optopt: char)
    requires 1 <= first <= last <= i && i + 1 < |s| == |orig| && s[i..] == orig[i..]
    ensures s[i + 2..] == orig[i + 2..] && s[i + 1] == orig[i..][1]
    ensures TotalOf(s, orig, first, last, i + 2, "", optstring, optopt)
         == Combine(s[1..first] + s[last..i], s[first..last],
                    AddOpts([orig[i..][0], orig[i..][1]], Scan(orig[i..][2..], optstring, optopt)))
  {
  }

  /** Inside an element the total is what its unread characters yield. */
  lemma TotalWithin(s: seq<string>, orig: seq<string>, first: nat, last: nat, i: nat, chars: string,
                    optstring: string, optopt: char)
    requires 1 <= first <= last <= i < |s| == |orig| && chars != ""
    ensures TotalOf(s, orig, first, last, i, chars, optstring, optopt)
         == Combine(s[1..first] + s[last..i], s[first..last], ScanCluster(chars, orig[i..], optstring, optopt))
  {
  }

  /** What remains after one character, in the same element or after it. */
  lemma TotalAfterChar(s: seq<string>, orig: seq<string>, first: nat, last: nat, i: nat, chars: string,
                       optstring: string, optopt: char)
    requires 1 <= first <= last <= i < |s| == |orig| && s[i..] == orig[i..]
    ensures TotalOf(s, orig, first, last, if chars == "" then i + 1 else i, chars, optstring, optopt)
         == Combine(s[1..first] + s[last..i], s[first..last], ScanRest(chars, orig[i..], optstring, optopt))
  {
  }

  /** The scan enters an option element. */
  lemma OptionElement(s: seq<string>, orig: seq<string>, i: nat, optstring: string, optopt: char)
    requires i < |s| == |orig| && s[i..] == orig[i..] && !IsNonOption(s[i]) && s[i] != "--"
    ensures Scan(orig[i..], optstring, optopt) == ScanCluster(s[i][1..], orig[i..], optstring, optopt)
  {
  }

  /** What an exchange does to the two groups. */
  lemma RegroupedAt(s: seq<string>, first: nat, last: nat, i: nat)
    requires 1 <= first <= last <= i <= |s|
    ensures var r, mid := Rotated(s, first, last, i), first + (i - last);
      && r[1..mid] == s[1..first] + s[last..i]
      && r[mid..i] == s[first..last]
      && r[i..] == s[i..] && r[0] == s[0]
  {
  }

  /** Grouping the options in front leaves the total as it is. */
  lemma GroupedTotal(s: seq<string>, orig: seq<string>, first: nat, last: nat, i: nat, optstring: string, optopt: char)
    requires 1 <= first <= last <= i <= |s| == |orig| && s[i..] == orig[i..]
    ensures var r, mid := Rotated(s, first, last, i), first + (i - last);
      && r[i..] == orig[i..] && r[0] == s[0]
      && TotalOf(r, orig, mid, i, i, "", optstring, optopt) == TotalOf(s, orig, first, last, i, "", optstring, optopt)
  {
    hide Scan;
    RegroupedAt(s, first, last, i);
    var r, mid := Rotated(s, first, last, i), first + (i - last);
    assert r[i..i] == [];
    assert r[1..mid] + r[i..i] == s[1..first] + s[last..i];
  }

  /** So does skipping one more non-option. */
  lemma SkippedTotal(s: seq<string>, orig: seq<string>, first: nat, i: nat, optstring: string, optopt: char)
    requires 1 <= first <= i < |s| == |orig| && s[i..] == orig[i..] && IsNonOption(s[i])
    ensures s[i + 1..] == orig[i + 1..]
    ensures TotalOf(s, orig, first, i + 1, i + 1, "", optstring, optopt)
      == TotalOf(s, orig, first, i, i, "", optstring, optopt)
  {
  }

  /** When everything has been scanned the total is what stands in the vector. */
  lemma EndTotal(s: seq<string>, orig: seq<string>, first: nat, optstring: string, optopt: char)
    requires 1 <= first <= |s| == |orig|
    ensures TotalOf(s, orig, first, |s|, |s|, "", optstring, optopt) == Parse([], s[1..first], s[first..])
  {
  }

  /** The terminator at i joins the options, and everything after it the non-options. */
  lemma TerminatorTotal(s: seq<string>, orig: seq<string>, first: nat, i: nat, optstring: string, optopt: char)
    requires 1 <= first <= i < |s| == |orig| && s[i..] == orig[i..] && s[i] == "--"
    ensures var r := Rotated(s, first, i, i + 1);
      && r[0] == s[0]
      && TotalOf(s, orig, first, i, i, "", optstring, optopt) == Parse([], r[1..first + 1], r[first + 1..])
  {
  }

  /** s with the blocks s[bottom..middle] and s[middle..top] exchanged. */
  function Rotated<T>(s: seq<T>, bottom: nat, middle: nat, top: nat): (r: seq<T>)
    requires bottom <= middle <= top <= |s|
    ensures |r| == |s|
  {
    seq(|s|, i requires 0 <= i < |s| =>
      if i < bottom || top <= i then s[i]
      else if i < bottom + (top - middle) then s[i + (middle - bottom)]
      else s[i - (top - middle)])
  }

  /** A rotation keeps both blocks in order and everything outside them in place. */
  lemma RotatedIsExchange<T>(s: seq<T>, bottom: nat, middle: nat, top: nat)
    requires bottom <= middle <= top <= |s|
    ensures Rotated(s, bottom, middle, top) == s[..bottom] + s[middle..top] + s[bottom..middle] + s[top..]
  {
  }

  lemma RotatedTrivially<T>(s: seq<T>, bottom: nat, middle: nat, top: nat)
    requires bottom <= middle <= top <= |s| && (bottom == middle || middle == top)
    ensures Rotated(s, bottom, middle, top) == s
  {
  }

  /** s with the blocks of length len at a and at b swapped. */
  function BlocksSwapped<T>(s: seq<T>, a: nat, b: nat, len: nat): (r: seq<T>)
    requires a + len <= b && b + len <= |s|
    ensures |r| == |s|
  {
    seq(|s|, i requires 0 <= i < |s| =>
      if a <= i < a + len then s[i + (b - a)]
      else if b <= i < b + len then s[i - (b - a)]
      else s[i])
  }

  lemma SwappedElements<T>(s: seq<T>, t: seq<T>, a: nat, b: nat, len: nat)
    requires a + len <= b && b + len <= |s| == |t|
    requires forall k :: a <= k < a + len ==> t[k] == s[k + (b - a)]
    requires forall k :: b <= k < b + len ==> t[k] == s[k - (b - a)]
    requires forall k :: 0 <= k < |s| && !(a <= k < a + len) && !(b <= k < b + len) ==> t[k] == s[k]
    ensures t == BlocksSwapped(s, a, b, len)
  {
  }

  /** Swapping the short bottom block with the far end of the top block leaves a smaller rotation. */
  lemma RotateShortBottom<T>(s: seq<T>, bottom: nat, middle: nat, top: nat)
    requires bottom <= middle <= top <= |s| && middle - bottom < top - middle
    ensures var len := middle - bottom;
      Rotated(BlocksSwapped(s, bottom, top - len, len), bottom, middle, top - len) == Rotated(s, bottom, middle, top)
  {
  }

  /** Swapping the short top block with the near end of the bottom block leaves a smaller rotation. */
  lemma RotateShortTop<T>(s: seq<T>, bottom: nat, middle: nat, top: nat)
    requires bottom <= middle <= top <= |s| && top - middle <= middle - bottom
    ensures var len := top - middle;
      Rotated(BlocksSwapped(s, bottom, middle, len), bottom + len, middle, top) == Rotated(s, bottom, middle, top)
  {
  }
}

/** What a scan means for the caller of getopt. */
module GetoptTheorems {
  import opened GetoptSpec

  /** s is a and b merged, each kept in its own order. */
  ghost predicate Interleaves(s: seq<string>, a: seq<string>, b: seq<string>)
    decreases |s|
  {
    if s == [] then a == [] && b == []
    else
      || (a != [] && a[0] == s[0] && Interleaves(s[1..], a[1..], b))
      || (b != [] && b[0] == s[0] && Interleaves(s[1..], a, b[1..]))
  }

  lemma {:induction false} OnlyOthers(s: seq<string>)
    ensures Interleaves(s, [], s)
  {
    if s != [] {
      OnlyOthers(s[1..]);
    }
  }

  /** The options and the non-options both keep the order they had on the command line. */
  lemma {:induction false} ScanIsStable(args: seq<string>, optstring: string, optopt: char)
    ensures var p := Scan(args, optstring, optopt); Interleaves(args, p.opts, p.others)
    decreases |args|, 1, 0
  {
    if args == [] {
    } else if args[0] == "--" {
      OnlyOthers(args[1..]);
    } else if IsNonOption(args[0]) {
      ScanIsStable(args[1..], optstring, optopt);
    } else {
      ClusterIsStable(args[0][1..], args, optstring, optopt);
    }
  }

  lemma {:induction false} ClusterIsStable(chars: string, args: seq<string>, optstring: string, optopt: char)
    requires chars != "" && args != []
    ensures var p := ScanCluster(chars, args, optstring, optopt); Interleaves(args, p.opts, p.others)
    decreases |args|, 0, |chars|
  {
    var kind, rest := KindOf(optstring, chars[0]), chars[1..];
    var optopt' := if kind == Unknown then chars[0] else optopt;
    if (kind == Unknown || kind == Plain) && rest != "" {
      ClusterIsStable(rest, args, optstring, optopt');
    } else if kind == Required && rest == "" && |args| > 1 {
      ScanIsStable(args[2..], optstring, optopt);
      assert args[1..][1..] == args[2..];
    } else {
      ScanIsStable(args[1..], optstring, optopt');
    }
  }

  /** The permuted vector is a permutation of the original one. */
  lemma {:induction false} InterleavedIsPermutation(s: seq<string>, a: seq<string>, b: seq<string>)
    requires Interleaves(s, a, b)
    ensures multiset(s) == multiset(a + b) && |s| == |a| + |b|
    decreases |s|
  {
    if s != [] {
      assert s == [s[0]] + s[1..];
      if a != [] && a[0] == s[0] && Interleaves(s[1..], a[1..], b) {
        InterleavedIsPermutation(s[1..], a[1..], b);
        assert a + b == [a[0]] + (a[1..] + b);
      } else {
        InterleavedIsPermutation(s[1..], a, b[1..]);
        assert b == [b[0]] + b[1..];
        assert multiset(a + b) == multiset(a) + multiset(b) == multiset(a + b[1..]) + multiset{b[0]};
      }
    }
  }

  /** How a scan comes to its end. */
  datatype Ending = AllRead | Terminator | MissingArgument

  function EndOf(args: seq<string>, optstring: string): Ending
    decreases |args|, 1, 0
  {
    if args == [] then AllRead
    else if args[0] == "--" then Terminator
    else if IsNonOption(args[0]) then EndOf(args[1..], optstring)
    else EndOfCluster(args[0][1..], args, optstring)
  }

  function EndOfCluster(chars: string, args: seq<string>, optstring: string): Ending
    requires chars != "" && args != []
    decreases |args|, 0, |chars|
  {
    var kind, rest := KindOf(optstring, chars[0]), chars[1..];
    if (kind == Unknown || kind == Plain) && rest != "" then EndOfCluster(rest, args, optstring)
    else if kind == Required && rest == "" then
      if |args| == 1 then MissingArgument else EndOf(args[2..], optstring)
    else EndOf(args[1..], optstring)
  }

  predicate AllNonOptions(s: seq<string>) {
    forall i :: 0 <= i < |s| ==> IsNonOption(s[i])
  }

  /** Without the terminator nothing that looks like an option is left among the others. */
  lemma {:induction false} OthersAreNonOptions(args: seq<string>, optstring: string, optopt: char)
    requires EndOf(args, optstring) != Terminator
    ensures AllNonOptions(Scan(args, optstring, optopt).others)
    decreases |args|, 1, 0
  {
    if args == [] {
    } else if IsNonOption(args[0]) {
      OthersAreNonOptions(args[1..], optstring, optopt);
    } else {
      OthersOfCluster(args[0][1..], args, optstring, optopt);
    }
  }

  lemma {:induction false} OthersOfCluster(chars: string, args: seq<string>, optstring: string, optopt: char)
    requires chars != "" && args != [] && EndOfCluster(chars, args, optstring) != Terminator
    ensures AllNonOptions(ScanCluster(chars, args, optstring, optopt).others)
    decreases |args|, 0, |chars|
  {
    var kind, rest := KindOf(optstring, chars[0]), chars[1..];
    var optopt' := if kind == Unknown then chars[0] else optopt;
    if (kind == Unknown || kind == Plain) && rest != "" {
      OthersOfCluster(rest, args, optstring, optopt');
    } else if kind == Required && rest == "" {
      if |args| > 1 {
        OthersAreNonOptions(args[2..], optstring, optopt);
      }
    } else {
      OthersAreNonOptions(args[1..], optstring, optopt');
    }
  }

  lemma {:induction false} ScanOfNonOptions(s: seq<string>, optstring: string, optopt: char)
    requires AllNonOptions(s)
    ensures Scan(s, optstring, optopt) == Parse([], [], s)
  {
    if s != [] {
      ScanOfNonOptions(s[1..], optstring, optopt);
      assert s == [s[0]] + s[1..];
    }
  }

  /** Scanning the options again, followed by x, finds the same events and leaves x alone. */
  ghost predicate Repeats(p: Parse, x: seq<string>, again: Parse) {
    again == Parse(p.events, p.opts, x)
  }

  /** x may follow the options of a scan that ended in this way without being mistaken for one. */
  predicate Follows(x: seq<string>, end: Ending) {
    (end == Terminator || AllNonOptions(x)) && (end == MissingArgument ==> x == [])
  }

  lemma {:induction false} RescanRepeats(args: seq<string>, x: seq<string>, optstring: string, optopt: char)
    requires Follows(x, EndOf(args, optstring))
    ensures var p := Scan(args, optstring, optopt); Repeats(p, x, Scan(p.opts + x, optstring, optopt))
    decreases |args|, 1, 0
  {
    var p := Scan(args, optstring, optopt);
    if args == [] {
      assert p.opts + x == x;
      ScanOfNonOptions(x, optstring, optopt);
    } else if args[0] == "--" {
      assert (p.opts + x)[1..] == x;
    } else if IsNonOption(args[0]) {
      RescanRepeats(args[1..], x, optstring, optopt);
    } else {
      RescanCluster(args[0][1..], args, x, optstring, optopt);
    }
  }

  lemma {:induction false} RescanCluster(chars: string, args: seq<string>, x: seq<string>, optstring: string,
                                         optopt: char)
    requires chars != "" && args != [] && Follows(x, EndOfCluster(chars, args, optstring))
    ensures var p := ScanCluster(chars, args, optstring, optopt);
      && p.opts != [] && p.opts[0] == args[0]
      && Repeats(p, x, ScanCluster(chars, p.opts + x, optstring, optopt))
    decreases |args|, 0, |chars|
  {
    var p := ScanCluster(chars, args, optstring, optopt);
    var kind, rest := KindOf(optstring, chars[0]), chars[1..];
    var optopt' := if kind == Unknown then chars[0] else optopt;
    if (kind == Unknown || kind == Plain) && rest != "" {
      RescanCluster(rest, args, x, optstring, optopt');
    } else if kind == Required && rest == "" {
      if |args| == 1 {
        assert p.opts + x == [args[0]];
      } else {
        RescanRepeats(args[2..], x, optstring, optopt);
        DropTaken([args[0], args[1]], Scan(args[2..], optstring, optopt).opts, x);
      }
    } else {
      RescanRepeats(args[1..], x, optstring, optopt');
      DropTaken([args[0]], Scan(args[1..], optstring, optopt').opts, x);
    }
  }

  lemma DropTaken(taken: seq<string>, opts: seq<string>, x: seq<string>)
    ensures ((taken + opts) + x)[|taken|..] == opts + x
    ensures forall k :: 0 <= k < |taken| ==> ((taken + opts) + x)[k] == taken[k]
  {
  }

  /** After a missing argument, the first element of x is taken for it. */
  lemma {:induction false} RescanTakesArgument(args: seq<string>, x: seq<string>, optstring: string, optopt: char)
    requires EndOf(args, optstring) == MissingArgument && x != []
    ensures var p := Scan(args, optstring, optopt); |Scan(p.opts + x, optstring, optopt).opts| > |p.opts|
    decreases |args|, 1, 0
  {
    if IsNonOption(args[0]) {
      RescanTakesArgument(args[1..], x, optstring, optopt);
    } else {
      RescanClusterTakes(args[0][1..], args, x, optstring, optopt);
    }
  }

  lemma {:induction false} RescanClusterTakes(chars: string, args: seq<string>, x: seq<string>, optstring: string,
                                              optopt: char)
    requires chars != "" && args != [] && EndOfCluster(chars, args, optstring) == MissingArgument && x != []
    ensures var p := ScanCluster(chars, args, optstring, optopt);
      && p.opts != [] && p.opts[0] == args[0]
      && |ScanCluster(chars, p.opts + x, optstring, optopt).opts| > |p.opts|
    decreases |args|, 0, |chars|
  {
    var p := ScanCluster(chars, args, optstring, optopt);
    var kind, rest := KindOf(optstring, chars[0]), chars[1..];
    var optopt' := if kind == Unknown then chars[0] else optopt;
    if (kind == Unknown || kind == Plain) && rest != "" {
      RescanClusterTakes(rest, args, x, optstring, optopt');
    } else if kind == Required && rest == "" {
      if |args| > 1 {
        RescanTakesArgument(args[2..], x, optstring, optopt);
        DropTaken([args[0], args[1]], Scan(args[2..], optstring, optopt).opts, x);
      }
    } else {
      RescanTakesArgument(args[1..], x, optstring, optopt');
      DropTaken([args[0]], Scan(args[1..], optstring, optopt').opts, x);
    }
  }

  /**
   * Scanning the permuted vector again gives the same result, except exactly when the last
   * option lacked its argument and a non-option now stands where the argument should be.
   */
  lemma RescanSame(args: seq<string>, optstring: string, optopt: char)
    ensures var p := Scan(args, optstring, optopt);
      Scan(p.opts + p.others, optstring, optopt) == p
      <==> !(EndOf(args, optstring) == MissingArgument && p.others != [])
  {
    var p := Scan(args, optstring, optopt);
    if EndOf(args, optstring) == MissingArgument && p.others != [] {
      RescanTakesArgument(args, p.others, optstring, optopt);
    } else {
      if EndOf(args, optstring) != Terminator {
        OthersAreNonOptions(args, optstring, optopt);
      }
      RescanRepeats(args, p.others, optstring, optopt);
    }
  }
}
