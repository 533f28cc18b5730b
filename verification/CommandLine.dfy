// Command lines as their users mean them, against what pc/hid_bootloader/getopt.c makes of them.

/** Options that are declared and given, written down as an option string and a command line. */
module CommandLines {
  import opened GetoptSpec
  import Getopt

  // ----- option strings -----

  datatype Takes = Nothing | Maybe | Must

  datatype Declaration = Declaration(c: char, takes: Takes)

  /** A character is followed by two colons for an optional argument and by one for a required one. */
  function Colons(takes: Takes): string {
    match takes
    case Nothing => ""
    case Maybe => "::"
    case Must => ":"
  }

  function Declarations(ds: seq<Declaration>): string {
    if ds == [] then "" else [ds[0].c] + Colons(ds[0].takes) + Declarations(ds[1..])
  }

  /** A leading colon asks for ':' instead of '?' when an argument is missing. */
  function OptionString(ds: seq<Declaration>, colon: bool): string {
    (if colon then ":" else "") + Declarations(ds)
  }

  /** What the first declaration of c says. */
  function Lookup(ds: seq<Declaration>, c: char): Option<Takes> {
    if ds == [] then None else if ds[0].c == c then Some(ds[0].takes) else Lookup(ds[1..], c)
  }

  predicate Declarable(ds: seq<Declaration>) {
    forall i :: 0 <= i < |ds| ==> ds[i].c != ':'
  }

  // ----- command lines -----

  /** An option as it is given; a required argument may be attached or the next element, or be missing at the end. */
  datatype Item =
    | Plainly(c: char)
    | Undeclared(c: char)
    | Optionally(c: char, arg: Option<string>)
    | Requiring(c: char, required: string, attached: bool)
    | Lacking(c: char)

  /** An element that holds options, of which only the last can take an argument, or any other element. */
  datatype Word = Options(heads: seq<Item>, last: Item) | Operand(text: string)

  /** A command line; behind the terminator "--" everything is an operand. */
  datatype Line = Line(words: seq<Word>, terminated: bool, rest: seq<string>)

  predicate Fits(ds: seq<Declaration>, item: Item) {
    match item
    case Plainly(c) => Lookup(ds, c) == Some(Nothing)
    case Undeclared(c) => c == ':' || Lookup(ds, c) == None
    case Optionally(c, arg) => Lookup(ds, c) == Some(Maybe) && arg != Some("")
    case Requiring(c, arg, attached) => Lookup(ds, c) == Some(Must) && (attached ==> arg != "")
    case Lacking(c) => Lookup(ds, c) == Some(Must)
  }

  /** Options that can stand before others in one element. */
  predicate HeadsFit(ds: seq<Declaration>, heads: seq<Item>) {
    forall i :: 0 <= i < |heads| ==> (heads[i].Plainly? || heads[i].Undeclared?) && Fits(ds, heads[i])
  }

  predicate WordFits(ds: seq<Declaration>, word: Word) {
    match word
    case Options(heads, last) => HeadsFit(ds, heads) && Fits(ds, last) && Element(word) != "--"
    case Operand(text) => text == "" || text == "-" || text[0] != '-'
  }

  predicate Lacks(word: Word) {
    word.Options? && word.last.Lacking?
  }

  /** An argument can only be missing at the very end. */
  predicate LineFits(ds: seq<Declaration>, line: Line) {
    && (forall i :: 0 <= i < |line.words| ==>
          && WordFits(ds, line.words[i])
          && (Lacks(line.words[i]) ==> i == |line.words| - 1 && !line.terminated))
    && (!line.terminated ==> line.rest == [])
  }

  function Letters(heads: seq<Item>): string {
    if heads == [] then "" else [heads[0].c] + Letters(heads[1..])
  }

  /** The argument that stands in the same element. */
  function Attachment(item: Item): string {
    match item
    case Optionally(_, Some(arg)) => arg
    case Requiring(_, arg, true) => arg
    case _ => ""
  }

  function Element(word: Word): string {
    match word
    case Options(heads, last) => "-" + (Letters(heads) + ([last.c] + Attachment(last)))
    case Operand(text) => text
  }

  function Elements(word: Word): seq<string> {
    if word.Options? && word.last.Requiring? && !word.last.attached then [Element(word), word.last.required]
    else [Element(word)]
  }

  function Ending(line: Line): seq<string> {
    if line.terminated then ["--"] + line.rest else []
  }

  function Rendered(words: seq<Word>): seq<string> {
    if words == [] then [] else Elements(words[0]) + Rendered(words[1..])
  }

  /** The elements of the command line. */
  function Render(line: Line): seq<string> {
    Rendered(line.words) + Ending(line)
  }

  // ----- what has been given -----

  function ItemsOf(word: Word): seq<Item> {
    if word.Options? then word.heads + [word.last] else []
  }

  function Items(words: seq<Word>): seq<Item> {
    if words == [] then [] else ItemsOf(words[0]) + Items(words[1..])
  }

  /** All elements that options take up, in order. */
  function OptionElements(words: seq<Word>): seq<string> {
    if words == [] then []
    else (if words[0].Options? then Elements(words[0]) else []) + OptionElements(words[1..])
  }

  function Operands(words: seq<Word>): seq<string> {
    if words == [] then []
    else (if words[0].Operand? then [words[0].text] else []) + Operands(words[1..])
  }

  /** How one option is reported; optopt is left alone unless something is wrong with it. */
  function Report(item: Item, colon: bool, optopt: char): Event {
    match item
    case Plainly(c) => Event(c, None, optopt)
    case Undeclared(c) => Event('?', None, c)
    case Optionally(c, arg) => Event(c, arg, optopt)
    case Requiring(c, arg, _) => Event(c, Some(arg), optopt)
    case Lacking(c) => Event(if colon then ':' else '?', None, c)
  }

  function Reports(items: seq<Item>, colon: bool, optopt: char): seq<Event> {
    if items == [] then []
    else
      var e := Report(items[0], colon, optopt);
      [e] + Reports(items[1..], colon, e.optopt)
  }

  function OptoptAfter(items: seq<Item>, colon: bool, optopt: char): char {
    if items == [] then optopt else OptoptAfter(items[1..], colon, Report(items[0], colon, optopt).optopt)
  }

  // ----- the option string is understood -----

  /** d begins with a declaration, which ends where the next one begins. */
  predicate Declares(d: string, c: char, takes: Takes) {
    && d != "" && d[0] == c
    && match takes
       case Nothing => |d| == 1 || d[1] != ':'
       case Maybe => |d| > 2 && d[1] == ':' && d[2] == ':'
       case Must => |d| > 1 && d[1] == ':' && (|d| == 2 || d[2] != ':')
  }

  lemma {:induction false} DeclaredInList(ds: seq<Declaration>, c: char)
    requires Declarable(ds) && c != ':'
    ensures var d := Declared(Declarations(ds), c);
      if Lookup(ds, c).None? then d == "" else Declares(d, c, Lookup(ds, c).value)
  {
    if ds != [] {
      var rest := Declarations(ds[1..]);
      assert rest != "" ==> rest[0] == ds[1].c;
      if ds[0].c == c {
        FirstDeclaration(ds[0], rest);
      } else {
        DeclaredInList(ds[1..], c);
        SkipDeclaration(ds[0], rest, c);
      }
    }
  }

  lemma FirstDeclaration(d: Declaration, rest: string)
    requires rest != "" ==> rest[0] != ':'
    ensures Declares([d.c] + Colons(d.takes) + rest, d.c, d.takes)
  {
  }

  lemma SkipDeclaration(d: Declaration, rest: string, c: char)
    requires d.c != c && c != ':'
    ensures Declared([d.c] + Colons(d.takes) + rest, c) == Declared(rest, c)
  {
    var s := [d.c] + Colons(d.takes) + rest;
    var after := Colons(d.takes) + rest;
    assert s[0] == d.c && s[1..] == after;
    match d.takes
    case Nothing => assert after == rest;
    case Maybe => {
      assert after[1..] == ":" + rest && (":" + rest)[1..] == rest;
      assert Declared(after, c) == Declared(":" + rest, c);
    }
    case Must => assert after[0] == ':' && after[1..] == rest;
  }

  /** The kind that the scanner finds is the one that was declared. */
  lemma KindIsDeclared(ds: seq<Declaration>, colon: bool, c: char)
    requires Declarable(ds)
    ensures KindOf(OptionString(ds, colon), c) ==
      if c == ':' || Lookup(ds, c).None? then Unknown
      else match Lookup(ds, c).value case Nothing => Plain case Maybe => Optional case Must => Required
  {
    var s := Declarations(ds);
    if c != ':' {
      assert (":" + s)[1..] == s && "" + s == s;
      DeclaredInList(ds, c);
    }
  }

  lemma ColonIsMissingReply(ds: seq<Declaration>, colon: bool)
    requires Declarable(ds)
    ensures MissingReply(OptionString(ds, colon)) == if colon then ':' else '?'
  {
  }

  // ----- the command line is understood -----

  lemma {:induction false} ReportsOfConcat(a: seq<Item>, b: seq<Item>, colon: bool, optopt: char)
    ensures Reports(a + b, colon, optopt)
      == Reports(a, colon, optopt) + Reports(b, colon, OptoptAfter(a, colon, optopt))
    ensures OptoptAfter(a + b, colon, optopt) == OptoptAfter(b, colon, OptoptAfter(a, colon, optopt))
  {
    if a == [] {
      assert a + b == b;
    } else {
      assert (a + b)[1..] == a[1..] + b;
      ReportsOfConcat(a[1..], b, colon, Report(a[0], colon, optopt).optopt);
    }
  }

  /** What the scan makes of a word with events, followed by a scan that makes p of the rest. */
  function Followed(events: seq<Event>, opts: seq<string>, p: Parse): Parse {
    Parse(events + p.events, opts + p.opts, p.others)
  }

  lemma OneMoreFollowed(e: Event, events: seq<Event>, opts: seq<string>, p: Parse)
    ensures AddEvent(e, Followed(events, opts, p)) == Followed([e] + events, opts, p)
    ensures AddEvent(e, AddOpts(opts, p)) == Followed([e], opts, p)
    ensures AddEvent(e, Parse([], opts, [])) == Followed([e], opts, Parse([], [], []))
  {
    assert [e] + (events + p.events) == ([e] + events) + p.events;
    assert opts + [] == opts;
  }

  lemma OneItem(item: Item, colon: bool, optopt: char)
    ensures Reports([item], colon, optopt) == [Report(item, colon, optopt)]
    ensures OptoptAfter([item], colon, optopt) == Report(item, colon, optopt).optopt
  {
    hide Report;
    assert [item][1..] == [];
  }

  /** An option without an argument, and what is left of its element. */
  lemma OneLetter(ds: seq<Declaration>, colon: bool, item: Item, rest: string, args: seq<string>, optopt: char)
    requires Declarable(ds) && Fits(ds, item) && (item.Plainly? || item.Undeclared?) && args != []
    ensures var e, optstring := Report(item, colon, optopt), OptionString(ds, colon);
      ScanCluster([item.c] + rest, args, optstring, optopt)
      == AddEvent(e, if rest == "" then AddOpts([args[0]], Scan(args[1..], optstring, e.optopt))
                     else ScanCluster(rest, args, optstring, e.optopt))
  {
    hide OptionString, Scan, ScanArgument, Lookup, KindOf, AddEvent, AddOpts;
    var chars, optstring := [item.c] + rest, OptionString(ds, colon);
    assert chars[0] == item.c && chars[1..] == rest;
    if item.Plainly? {
      NotColon(ds, item.c);
    }
    KindIsDeclared(ds, colon, item.c);
    var e := Report(item, colon, optopt);
    assert ScanCluster(chars, args, optstring, optopt) == AddEvent(e, ScanRest(rest, args, optstring, e.optopt));
    if rest == "" {
      assert ScanRest("", args, optstring, e.optopt) == AddOpts([args[0]], Scan(args[1..], optstring, e.optopt));
    }
  }

  /** An element of options: those from heads on, up to the last, which may take the next element. */
  lemma {:induction false} ClusterReports(ds: seq<Declaration>, colon: bool, heads: seq<Item>, last: Item,
                                          args: seq<string>, optopt: char)
    requires Declarable(ds) && HeadsFit(ds, heads) && Fits(ds, last) && args != []
    requires last.Requiring? && !last.attached ==> |args| > 1 && args[1] == last.required
    requires last.Lacking? ==> |args| == 1
    ensures var taken := if last.Requiring? && !last.attached then 2 else 1;
      var items := heads + [last];
      ScanCluster(Letters(heads) + ([last.c] + Attachment(last)), args, OptionString(ds, colon), optopt)
      == Followed(Reports(items, colon, optopt), args[..taken],
                  Scan(args[taken..], OptionString(ds, colon), OptoptAfter(items, colon, optopt)))
    decreases |heads|
  {
    hide Scan, OptionString, Report, AddEvent, ScanCluster, Attachment, Fits, Lookup, Followed, Declarable;
    var optstring := OptionString(ds, colon);
    var chars := Letters(heads) + ([last.c] + Attachment(last));
    if heads == [] {
      assert chars == [last.c] + Attachment(last) && heads + [last] == [last];
      OneItem(last, colon, optopt);
      LastReports(ds, colon, last, args, optopt);
    } else {
      var rest := Letters(heads[1..]) + ([last.c] + Attachment(last));
      assert chars == [heads[0].c] + rest;
      assert (heads + [last])[1..] == heads[1..] + [last];
      OneLetter(ds, colon, heads[0], rest, args, optopt);
      var e := Report(heads[0], colon, optopt);
      ClusterReports(ds, colon, heads[1..], last, args, e.optopt);
      var taken := if last.Requiring? && !last.attached then 2 else 1;
      OneMoreFollowed(e, Reports(heads[1..] + [last], colon, e.optopt), args[..taken],
                      Scan(args[taken..], optstring, OptoptAfter(heads[1..] + [last], colon, e.optopt)));
    }
  }

  lemma LastReports(ds: seq<Declaration>, colon: bool, last: Item, args: seq<string>, optopt: char)
    requires Declarable(ds) && Fits(ds, last) && args != []
    requires last.Requiring? && !last.attached ==> |args| > 1 && args[1] == last.required
    requires last.Lacking? ==> |args| == 1
    ensures var taken := if last.Requiring? && !last.attached then 2 else 1;
      ScanCluster([last.c] + Attachment(last), args, OptionString(ds, colon), optopt)
      == Followed([Report(last, colon, optopt)], args[..taken],
                  Scan(args[taken..], OptionString(ds, colon), Report(last, colon, optopt).optopt))
  {
    hide OptionString, Scan, ScanArgument, Lookup, KindOf, MissingReply;
    var optstring := OptionString(ds, colon);
    assert args[..1] == [args[0]];
    if last.Plainly? || last.Undeclared? {
      var e := Report(last, colon, optopt);
      OneLetter(ds, colon, last, "", args, optopt);
      OneMoreFollowed(e, [], args[..1], Scan(args[1..], optstring, e.optopt));
    } else {
      var chars := [last.c] + Attachment(last);
      assert chars[0] == last.c && chars[1..] == Attachment(last);
      KindIsDeclared(ds, colon, last.c);
      ArgumentReports(ds, colon, last, args, optopt);
    }
  }

  lemma ArgumentReports(ds: seq<Declaration>, colon: bool, last: Item, args: seq<string>, optopt: char)
    requires Declarable(ds) && Fits(ds, last) && args != [] && !last.Plainly? && !last.Undeclared?
    requires last.Requiring? && !last.attached ==> |args| > 1 && args[1] == last.required
    requires last.Lacking? ==> |args| == 1
    ensures var taken := if last.Requiring? && !last.attached then 2 else 1;
      && last.c != ':'
      && ScanArgument(last.c, Attachment(last), args, OptionString(ds, colon), optopt)
      == Followed([Report(last, colon, optopt)], args[..taken],
                  Scan(args[taken..], OptionString(ds, colon), Report(last, colon, optopt).optopt))
  {
    hide OptionString, Scan, Lookup, KindOf, MissingReply;
    NotColon(ds, last.c);
    KindIsDeclared(ds, colon, last.c);
    ColonIsMissingReply(ds, colon);
    NothingLeft(OptionString(ds, colon), Report(last, colon, optopt).optopt);
    var e, optstring := Report(last, colon, optopt), OptionString(ds, colon);
    assert args[..1] == [args[0]];
    if last.Lacking? {
      assert args[1..] == [];
      OneMoreFollowed(e, [], args[..1], Parse([], [], []));
    } else if last.Requiring? && !last.attached {
      assert args[..2] == [args[0], args[1]];
      OneMoreFollowed(e, [], args[..2], Scan(args[2..], optstring, e.optopt));
    } else {
      OneMoreFollowed(e, [], args[..1], Scan(args[1..], optstring, e.optopt));
    }
  }

  lemma {:induction false} NotColon(ds: seq<Declaration>, c: char)
    requires Declarable(ds) && Lookup(ds, c).Some?
    ensures c != ':'
  {
    if ds[0].c != c {
      NotColon(ds[1..], c);
    }
  }

  lemma NothingLeft(optstring: string, optopt: char)
    ensures Scan([], optstring, optopt) == Parse([], [], [])
  {
  }

  /** What the scan of a command line should yield: a report for every option given, and the two groups of elements. */
  function Understood(line: Line, colon: bool, optopt: char): Parse {
    Parse(Reports(Items(line.words), colon, optopt),
          OptionElements(line.words) + (if line.terminated then ["--"] else []),
          Operands(line.words) + line.rest)
  }

  lemma UnderstoodStep(line: Line, colon: bool, optopt: char)
    requires line.words != []
    ensures var word, later := line.words[0], line.(words := line.words[1..]);
      && Render(line) == Elements(word) + Render(later)
      && Understood(line, colon, optopt)
      == if word.Operand? then AddOther(word.text, Understood(later, colon, optopt))
         else Followed(Reports(ItemsOf(word), colon, optopt), Elements(word),
                       Understood(later, colon, OptoptAfter(ItemsOf(word), colon, optopt)))
  {
    hide Elements, Reports, OptoptAfter, Report;
    var word, later := line.words[0], line.(words := line.words[1..]);
    var end := if line.terminated then ["--"] else [];
    if word.Operand? {
      assert Items(line.words) == Items(later.words);
      assert OptionElements(line.words) == OptionElements(later.words);
      assert Operands(line.words) + line.rest == [word.text] + (Operands(later.words) + line.rest);
      assert Elements(word) == [word.text] by { OperandElement(word); }
    } else {
      ReportsOfConcat(ItemsOf(word), Items(later.words), colon, optopt);
      assert OptionElements(line.words) + end == Elements(word) + (OptionElements(later.words) + end);
      assert Operands(line.words) == Operands(later.words);
    }
    assert Render(line) == Elements(word) + Render(later);
  }

  lemma OperandElement(word: Word)
    requires word.Operand?
    ensures Elements(word) == [word.text]
  {
  }

  /** The words of a command line, one after the other. */
  lemma {:induction false} WordsReport(ds: seq<Declaration>, colon: bool, line: Line, optopt: char)
    requires Declarable(ds) && LineFits(ds, line)
    ensures Scan(Render(line), OptionString(ds, colon), optopt) == Understood(line, colon, optopt)
    decreases |line.words|
  {
    if line.words == [] {
      assert Render(line) == Ending(line);
      if line.terminated {
        assert Render(line)[1..] == line.rest;
      }
    } else {
      hide OptionString, Understood, Scan, ScanCluster, Reports, OptoptAfter;
      var word, later := line.words[0], line.(words := line.words[1..]);
      LaterFits(ds, line);
      UnderstoodStep(line, colon, optopt);
      if word.Operand? {
        OperandSkipped(word.text, Render(later), OptionString(ds, colon), optopt);
        WordsReport(ds, colon, later, optopt);
      } else {
        OptionsReport(ds, colon, word, Render(later), optopt);
        WordsReport(ds, colon, later, OptoptAfter(ItemsOf(word), colon, optopt));
      }
    }
  }

  lemma OperandSkipped(text: string, later: seq<string>, optstring: string, optopt: char)
    requires text == "" || text == "-" || text[0] != '-'
    ensures Scan([text] + later, optstring, optopt) == AddOther(text, Scan(later, optstring, optopt))
  {
    assert ([text] + later)[1..] == later;
  }

  lemma LaterFits(ds: seq<Declaration>, line: Line)
    requires LineFits(ds, line) && line.words != []
    ensures LineFits(ds, line.(words := line.words[1..])) && WordFits(ds, line.words[0])
    ensures Lacks(line.words[0]) ==> Render(line.(words := line.words[1..])) == []
  {
  }

  lemma OptionsReport(ds: seq<Declaration>, colon: bool, word: Word, later: seq<string>, optopt: char)
    requires Declarable(ds) && WordFits(ds, word) && word.Options? && (word.last.Lacking? ==> later == [])
    ensures Scan(Elements(word) + later, OptionString(ds, colon), optopt)
         == Followed(Reports(ItemsOf(word), colon, optopt), Elements(word),
                     Scan(later, OptionString(ds, colon), OptoptAfter(ItemsOf(word), colon, optopt)))
  {
    hide OptionString, ScanCluster, Reports, OptoptAfter, Letters;
    var args := Elements(word) + later;
    var n := |Elements(word)|;
    assert args[..n] == Elements(word) && args[n..] == later;
    assert args[0] == Element(word) && args[0][0] == '-';
    assert args[0][1..] == Letters(word.heads) + ([word.last.c] + Attachment(word.last));
    ClusterReports(ds, colon, word.heads, word.last, args, optopt);
  }

  /**
   * getopt called until it returns -1: it reports exactly the options given, each with its
   * argument, and leaves the elements that hold options in front of the operands.
   */
  method ScanLine(argv: array<string>, ds: seq<Declaration>, colon: bool, ghost line: Line)
    returns (events: seq<Event>, optind: nat)
    requires Declarable(ds) && Supported(OptionString(ds, colon))
    requires argv.Length > 0 && LineFits(ds, line) && argv[1..] == Render(line)
    modifies argv
    ensures events == Reports(Items(line.words), colon, '?')
    ensures var options := OptionElements(line.words) + (if line.terminated then ["--"] else []);
      && argv[..] == [old(argv[0])] + options + (Operands(line.words) + line.rest)
      && optind == 1 + |options|
  {
    hide OptionString, Scan;
    WordsReport(ds, colon, line, '?');
    events, optind := Getopt.ScanAll(argv, OptionString(ds, colon));
  }

  /** The options of the host program are such options. */
  lemma OptionsOfProgram()
    ensures var ds := [Declaration('r', Nothing), Declaration('q', Nothing), Declaration('s', Nothing),
                       Declaration('v', Nothing)];
      Declarable(ds) && OptionString(ds, false) == "rqsv" && Supported("rqsv")
  {
    var r, q := Declaration('r', Nothing), Declaration('q', Nothing);
    var s, v := Declaration('s', Nothing), Declaration('v', Nothing);
    assert [r, q, s, v][1..] == [q, s, v] && [q, s, v][1..] == [s, v] && [s, v][1..] == [v] && [v][1..] == [];
    assert Declarations([v]) == "v";
    assert Declarations([s, v]) == "sv";
    assert Declarations([q, s, v]) == "qsv";
  }

  // ----- there is no other command line -----

  /** Every argument vector is a command line in this sense, whatever options are declared. */
  lemma {:induction false} EveryLine(ds: seq<Declaration>, args: seq<string>) returns (line: Line)
    ensures LineFits(ds, line) && Render(line) == args
    decreases |args|
  {
    if args == [] {
      line := Line([], false, []);
    } else if args[0] == "--" {
      line := Line([], true, args[1..]);
      assert args == ["--"] + args[1..];
    } else {
      hide LineFits, WordFits, Rendered, Ending;
      var word := EveryWord(ds, args);
      var later := EveryLine(ds, args[|Elements(word)|..]);
      line := later.(words := [word] + later.words);
      PutInFront(ds, word, later);
    }
  }

  lemma EveryWord(ds: seq<Declaration>, args: seq<string>) returns (word: Word)
    requires args != [] && args[0] != "--"
    ensures WordFits(ds, word) && 0 < |Elements(word)| <= |args|
    ensures args == Elements(word) + args[|Elements(word)|..]
    ensures Lacks(word) ==> args[|Elements(word)|..] == []
  {
    hide HeadsFit, Fits, Letters, Attachment;
    if args[0] == "" || args[0] == "-" || args[0][0] != '-' {
      word := Operand(args[0]);
    } else {
      var heads, last := EveryElement(ds, args[0][1..], args);
      word := Options(heads, last);
      assert Element(word) == args[0];
    }
  }

  lemma PutInFront(ds: seq<Declaration>, word: Word, later: Line)
    requires WordFits(ds, word) && LineFits(ds, later)
    requires Lacks(word) ==> Render(later) == []
    ensures var line := later.(words := [word] + later.words);
      LineFits(ds, line) && Render(line) == Elements(word) + Render(later)
  {
    hide WordFits, Lacks, Elements, Rendered, Ending;
    var line := later.(words := [word] + later.words);
    RenderInFront(word, later);
    forall i | 0 <= i < |line.words|
      ensures WordFits(ds, line.words[i]) && (Lacks(line.words[i]) ==> i == |line.words| - 1 && !line.terminated)
    {
      if i > 0 {
        assert line.words[i] == later.words[i - 1];
      }
    }
  }

  lemma RenderInFront(word: Word, later: Line)
    ensures Render(later.(words := [word] + later.words)) == Elements(word) + Render(later)
    ensures Render(later) == [] ==> later.words == [] && !later.terminated
  {
    hide Elements;
    assert ([word] + later.words)[1..] == later.words;
    if later.words != [] {
      SomeElements(later.words[0]);
    }
  }

  lemma SomeElements(word: Word)
    ensures Elements(word) != []
  {
  }

  /** The options in one element. */
  lemma {:induction false} EveryElement(ds: seq<Declaration>, chars: string, args: seq<string>)
    returns (heads: seq<Item>, last: Item)
    requires chars != "" && args != []
    ensures HeadsFit(ds, heads) && Fits(ds, last)
    ensures Letters(heads) + ([last.c] + Attachment(last)) == chars
    ensures last.Requiring? && !last.attached ==> |args| > 1 && args[1] == last.required
    ensures last.Lacking? ==> |args| == 1
    decreases |chars|
  {
    hide Lookup;
    var c, rest := chars[0], chars[1..];
    var found := Lookup(ds, c);
    assert chars == [c] + rest;
    heads := [];
    if c == ':' || found.None? || found.value.Nothing? {
      var item := if c == ':' || found.None? then Undeclared(c) else Plainly(c);
      if rest == "" {
        last := item;
      } else {
        var more;
        more, last := EveryElement(ds, rest, args);
        heads := [item] + more;
        assert heads[1..] == more && Letters(heads) == [c] + Letters(more);
      }
    } else if found.value.Maybe? {
      last := Optionally(c, if rest == "" then None else Some(rest));
    } else if rest != "" {
      last := Requiring(c, rest, true);
    } else if |args| == 1 {
      last := Lacking(c);
    } else {
      last := Requiring(c, args[1], false);
    }
  }
}
