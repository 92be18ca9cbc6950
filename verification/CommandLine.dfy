/** Model of the command-line parser, against a grammar of the argument lists it accepts. */
module CommandLine {
  import opened Results
  import opened Strings

  datatype FlagSpec = FlagSpec(name: string, short: Option<string>, takesValue: bool, multiple: bool)

  datatype Value = Text(text: string) | Truth(on: bool)

  datatype UsageError = UnknownFlag(name: string) | MissingValue(arg: string) | NotBoolean(name: string)

  /** What the parser returns; `multi` holds every value of the repeatable flags. */
  datatype Parsed = Parsed(positionals: seq<string>, flags: map<string, Value>, multi: map<string, seq<string>>)

  /** The implicit inverse of a declared `--json`. */
  const PLAIN := FlagSpec("plain", None, false, false)

  // ------------------------------------------------------------- grammar

  /** `--name=value`, `--name` with its value apart, or `-c` likewise. */
  datatype Spelling = Inline | Apart | Letter(letter: char)

  datatype Item = Flag(spec: FlagSpec, value: Value, how: Spelling) | Positional(token: string)

  function FindLong(specs: seq<FlagSpec>, name: string): (r: Option<FlagSpec>)
    ensures r.Some? ==> r.value.name == name
  {
    if specs == [] then None else if specs[0].name == name then Some(specs[0]) else FindLong(specs[1..], name)
  }

  function FindShort(specs: seq<FlagSpec>, short: string): (r: Option<FlagSpec>)
    ensures r.Some? ==> r.value.short == Some(short)
  {
    if specs == [] then None else if specs[0].short == Some(short) then Some(specs[0]) else FindShort(specs[1..], short)
  }

  function LongSpec(specs: seq<FlagSpec>, name: string): (r: Option<FlagSpec>)
    ensures r.Some? ==> r.value.name == name
  {
    var spec := FindLong(specs, name);
    if spec.None? && name == "plain" && FindLong(specs, "json").Some? then Some(PLAIN) else spec
  }

  /** Flag `i` is the first with this name. */
  ghost predicate FirstLong(specs: seq<FlagSpec>, i: nat, name: string) {
    i < |specs| && specs[i].name == name && forall j | 0 <= j < i :: specs[j].name != name
  }

  ghost predicate FirstShort(specs: seq<FlagSpec>, i: nat, short: string) {
    i < |specs| && specs[i].short == Some(short) && forall j | 0 <= j < i :: specs[j].short != Some(short)
  }

  lemma {:induction false} FindsNoLong(specs: seq<FlagSpec>, name: string)
    ensures FindLong(specs, name).None? <==> forall spec | spec in specs :: spec.name != name
    ensures FindLong(specs, name).Some? ==> FindLong(specs, name).value in specs
  {
    if specs != [] {
      FindsNoLong(specs[1..], name);
      assert specs == [specs[0]] + specs[1..];
    }
  }

  lemma {:induction false} FindsNoShort(specs: seq<FlagSpec>, short: string)
    ensures FindShort(specs, short).None? <==> forall spec | spec in specs :: spec.short != Some(short)
    ensures FindShort(specs, short).Some? ==> FindShort(specs, short).value in specs
  {
    if specs != [] {
      FindsNoShort(specs[1..], short);
      assert specs == [specs[0]] + specs[1..];
    }
  }

  lemma {:induction false} FindsFirstLong(specs: seq<FlagSpec>, name: string, i: nat)
    requires FirstLong(specs, i, name)
    ensures FindLong(specs, name) == Some(specs[i])
  {
    if i > 0 {
      FindsFirstLong(specs[1..], name, i - 1);
    }
  }

  lemma {:induction false} FindsFirstShort(specs: seq<FlagSpec>, short: string, i: nat)
    requires FirstShort(specs, i, short)
    ensures FindShort(specs, short) == Some(specs[i])
  {
    if i > 0 {
      FindsFirstShort(specs[1..], short, i - 1);
    }
  }

  lemma {:induction false} FoundIsFirstShort(specs: seq<FlagSpec>, short: string)
    requires FindShort(specs, short).Some?
    ensures exists i: nat :: FirstShort(specs, i, short) && specs[i] == FindShort(specs, short).value
  {
    if specs[0].short == Some(short) {
      assert FirstShort(specs, 0, short);
    } else {
      FoundIsFirstShort(specs[1..], short);
      var i: nat :| FirstShort(specs[1..], i, short) && specs[1..][i] == FindShort(specs, short).value;
      assert FirstShort(specs, i + 1, short);
    }
  }

  /** A declared flag is found, the first of its name; and `plain` also where only `json` is declared. */
  lemma LongSpecExactly(specs: seq<FlagSpec>, name: string, i: nat)
    ensures FirstLong(specs, i, name) ==> LongSpec(specs, name) == Some(specs[i])
    ensures (forall spec | spec in specs :: spec.name != name) ==>
              LongSpec(specs, name)
              == if name == "plain" && exists spec | spec in specs :: spec.name == "json" then Some(PLAIN) else None
  {
    FindsNoLong(specs, name);
    FindsNoLong(specs, "json");
    if FirstLong(specs, i, name) {
      FindsFirstLong(specs, name, i);
    }
  }

  predicate IsLetter(c: char) {
    'A' <= c <= 'Z' || 'a' <= c <= 'z'
  }

  predicate IsLong(arg: string) {
    |arg| >= 2 && arg[0] == '-' && arg[1] == '-'
  }

  predicate IsShort(arg: string) {
    |arg| == 2 && arg[0] == '-' && IsLetter(arg[1])
  }

  function Show(value: Value): string {
    match value
    case Text(text) => text
    case Truth(on) => if on then "true" else "false"
  }

  /** The value tokens after a flag that is not written inline. */
  function Trailing(value: Value): seq<string> {
    if value.Text? then [value.text] else []
  }

  function Tokens(item: Item): seq<string> {
    match item
    case Positional(token) => [token]
    case Flag(spec, value, Inline) => ["--" + spec.name + "=" + Show(value)]
    case Flag(spec, value, Apart) => ["--" + spec.name] + Trailing(value)
    case Flag(_, value, Letter(c)) => [['-', c]] + Trailing(value)
  }

  /** The item may be written, under these declared flags. */
  predicate Legal(specs: seq<FlagSpec>, item: Item) {
    match item
    case Positional(token) => !IsLong(token) && !IsShort(token)
    case Flag(spec, value, how) =>
      && (spec.takesValue <==> value.Text?)
      && (how.Letter? ==> IsLetter(how.letter) && FindShort(specs, [how.letter]) == Some(spec))
      && (!how.Letter? ==> '=' !in spec.name && LongSpec(specs, spec.name) == Some(spec))
      && (how.Apart? ==> spec.name != "")
      && (!how.Inline? ==> value != Truth(false))
  }

  /** No two flags share a name. */
  ghost predicate Distinct(specs: seq<FlagSpec>) {
    forall i, j | 0 <= i < j < |specs| :: specs[i].name != specs[j].name
  }

  /** `spec` is declared, or is the `plain` that a declared `json` implies. */
  ghost predicate Declared(specs: seq<FlagSpec>, spec: FlagSpec) {
    spec in specs
    || (spec == FlagSpec("plain", None, false, false) && (exists s | s in specs :: s.name == "json")
        && forall s | s in specs :: s.name != "plain")
  }

  /** How the items of these flags may be written; a letter means the first flag that has it. */
  ghost predicate Spelled(specs: seq<FlagSpec>, item: Item) {
    match item
    case Positional(token) =>
      !("--" <= token) && !(|token| == 2 && token[0] == '-' && ('A' <= token[1] <= 'Z' || 'a' <= token[1] <= 'z'))
    case Flag(spec, value, how) =>
      && (spec.takesValue <==> value.Text?)
      && match how
         case Inline => '=' !in spec.name && Declared(specs, spec)
         case Apart => '=' !in spec.name && spec.name != "" && Declared(specs, spec) && value != Truth(false)
         case Letter(c) =>
           && (exists i: nat :: FirstShort(specs, i, [c]) && specs[i] == spec)
           && ('A' <= c <= 'Z' || 'a' <= c <= 'z') && value != Truth(false)
  }

  lemma MemberIsFound(specs: seq<FlagSpec>, spec: FlagSpec)
    requires Distinct(specs) && spec in specs
    ensures LongSpec(specs, spec.name) == Some(spec)
  {
    var i: nat :| i < |specs| && specs[i] == spec;
    assert FirstLong(specs, i, spec.name);
    LongSpecExactly(specs, spec.name, i);
  }

  lemma DeclaredIsFound(specs: seq<FlagSpec>, spec: FlagSpec)
    requires Distinct(specs)
    ensures LongSpec(specs, spec.name) == Some(spec) <==> Declared(specs, spec)
  {
    FindsNoLong(specs, spec.name);
    if spec in specs {
      MemberIsFound(specs, spec);
    } else if forall s | s in specs :: s.name != spec.name {
      LongSpecExactly(specs, spec.name, 0);
    }
  }

  lemma LetterIsFound(specs: seq<FlagSpec>, spec: FlagSpec, short: string)
    ensures FindShort(specs, short) == Some(spec) <==>
            exists i: nat :: FirstShort(specs, i, short) && specs[i] == spec
  {
    if FindShort(specs, short).Some? {
      FoundIsFirstShort(specs, short);
    }
    if i: nat :| FirstShort(specs, i, short) && specs[i] == spec {
      FindsFirstShort(specs, short, i);
    }
  }

  /** Where flags have distinct names, the grammar admits exactly the declared ones. */
  lemma LegalExactly(specs: seq<FlagSpec>, item: Item)
    requires Distinct(specs)
    ensures Legal(specs, item) <==> Spelled(specs, item)
  {
    match item
    case Positional(token) =>
      assert "--" <= token <==> IsLong(token);
    case Flag(spec, _, how) =>
      DeclaredIsFound(specs, spec);
      if how.Letter? {
        LetterIsFound(specs, spec, [how.letter]);
      }
  }

  predicate AllLegal(specs: seq<FlagSpec>, items: seq<Item>) {
    forall item | item in items :: Legal(specs, item)
  }

  function AllTokens(items: seq<Item>): seq<string> {
    if items == [] then [] else Tokens(items[0]) + AllTokens(items[1..])
  }

  /** Items, and behind an optional `--` anything at all. */
  predicate Written(specs: seq<FlagSpec>, argv: seq<string>, items: seq<Item>, rest: seq<string>) {
    && AllLegal(specs, items)
    && (argv == AllTokens(items) + ["--"] + rest || (rest == [] && argv == AllTokens(items)))
  }

  // ------------------------------------------------------------- meaning

  function Pushed(multi: map<string, seq<string>>, name: string, value: string): map<string, seq<string>> {
    multi[name := (if name in multi then multi[name] else []) + [value]]
  }

  function Applied(p: Parsed, item: Item): Parsed {
    match item
    case Positional(token) => p.(positionals := p.positionals + [token])
    case Flag(spec, value, _) =>
      p.(flags := p.flags[spec.name := value],
         multi := if spec.multiple && value.Text? then Pushed(p.multi, spec.name, value.text) else p.multi)
  }

  function Meaning(items: seq<Item>, rest: seq<string>): Parsed {
    var p := Accumulated(items);
    p.(positionals := p.positionals + rest)
  }

  function Accumulated(items: seq<Item>): Parsed {
    if items == [] then Parsed([], map[], map[]) else Applied(Accumulated(items[..|items| - 1]), items[|items| - 1])
  }

  /** The values of one repeatable flag, in order. */
  function ValuesOf(items: seq<Item>, name: string): seq<string> {
    if items == [] then []
    else
      var item := items[|items| - 1];
      ValuesOf(items[..|items| - 1], name)
      + if item.Flag? && item.spec.name == name && item.spec.multiple && item.value.Text? then [item.value.text] else []
  }

  function PositionalsOf(items: seq<Item>): seq<string> {
    if items == [] then []
    else PositionalsOf(items[..|items| - 1]) + if items[|items| - 1].Positional? then [items[|items| - 1].token] else []
  }

  predicate Gives(item: Item, name: string) {
    item.Flag? && item.spec.name == name
  }

  /** `name` got `value` in item `i` and nothing later. */
  ghost predicate LastGivenAt(items: seq<Item>, name: string, value: Value, i: nat) {
    && i < |items| && Gives(items[i], name) && items[i].value == value
    && forall j | i < j < |items| :: !Gives(items[j], name)
  }

  ghost predicate LastGiven(items: seq<Item>, name: string, value: Value) {
    exists i: nat :: LastGivenAt(items, name, value, i)
  }

  /**
   The result holds exactly the flags given, each with its last value, all values of repeatable flags, and the
   positionals.
   */
  lemma MeaningExactly(items: seq<Item>, rest: seq<string>, name: string, value: Value)
    ensures var p := Meaning(items, rest);
            && (name in p.flags && p.flags[name] == value <==> LastGiven(items, name, value))
            && (if name in p.multi then p.multi[name] else []) == ValuesOf(items, name)
            && p.positionals == PositionalsOf(items) + rest
  {
    FlagsExactly(items, name, value);
    MultiExactly(items, name);
    PositionalsExactly(items);
  }

  lemma {:induction false} FlagsExactly(items: seq<Item>, name: string, value: Value)
    ensures var flags := Accumulated(items).flags;
            name in flags && flags[name] == value <==> LastGiven(items, name, value)
  {
    if items != [] {
      var front, last := items[..|items| - 1], items[|items| - 1];
      FlagsExactly(front, name, value);
      LastGivenNext(front, last, name, value);
      assert front + [last] == items;
    }
  }

  lemma {:induction false} MultiExactly(items: seq<Item>, name: string)
    ensures var multi := Accumulated(items).multi;
            (if name in multi then multi[name] else []) == ValuesOf(items, name)
  {
    if items != [] {
      MultiExactly(items[..|items| - 1], name);
    }
  }

  lemma {:induction false} PositionalsExactly(items: seq<Item>)
    ensures Accumulated(items).positionals == PositionalsOf(items)
  {
    if items != [] {
      PositionalsExactly(items[..|items| - 1]);
    }
  }

  lemma LastGivenNext(front: seq<Item>, last: Item, name: string, value: Value)
    ensures LastGiven(front + [last], name, value) <==>
            if Gives(last, name) then last.value == value else LastGiven(front, name, value)
  {
    var items, n := front + [last], |front|;
    forall i: nat
      ensures LastGivenAt(items, name, value, i) <==>
              if Gives(last, name) then i == n && last.value == value else LastGivenAt(front, name, value, i)
    {
      assert items[n] == last && forall k | 0 <= k < n :: items[k] == front[k];
    }
    if Gives(last, name) && last.value == value {
      assert LastGivenAt(items, name, value, n);
    }
  }

  // -------------------------------------------------------------- reading

  /** The next item of a list that does not start with `--`. */
  function ReadItem(specs: seq<FlagSpec>, argv: seq<string>): Result<Item, UsageError>
    requires argv != [] && argv[0] != "--"
  {
    var arg := argv[0];
    if IsLong(arg) then
      var eq := IndexOf(arg, '=');
      assert arg[0] == '-' && arg[1] == '-';
      var name := if eq.None? then arg else arg[..eq.value];
      var spec := LongSpec(specs, name[2..]);
      if spec.None? then Err(UnknownFlag(name))
      else if eq.None? then ReadApart(spec.value, argv, Apart)
      else
        var inline := arg[eq.value + 1..];
        if spec.value.takesValue then Ok(Flag(spec.value, Text(inline), Inline))
        else if inline == "true" then Ok(Flag(spec.value, Truth(true), Inline))
        else if inline == "false" then Ok(Flag(spec.value, Truth(false), Inline))
        else Err(NotBoolean(name))
    else if IsShort(arg) then
      var spec := FindShort(specs, arg[1..]);
      if spec.None? then Err(UnknownFlag(arg)) else ReadApart(spec.value, argv, Letter(arg[1]))
    else Ok(Positional(arg))
  }

  function ReadApart(spec: FlagSpec, argv: seq<string>, how: Spelling): Result<Item, UsageError>
    requires argv != []
  {
    if !spec.takesValue then Ok(Flag(spec, Truth(true), how))
    else if |argv| > 1 then Ok(Flag(spec, Text(argv[1]), how))
    else Err(MissingValue(argv[0]))
  }

  lemma InlineParts(arg: string, eq: nat)
    requires IsLong(arg) && IndexOf(arg, '=') == Some(eq)
    ensures eq >= 2 && arg == "--" + arg[..eq][2..] + "=" + arg[eq + 1..] && '=' !in arg[..eq][2..]
  {
    assert eq != 0 && eq != 1;
    assert arg == arg[..eq] + [arg[eq]] + arg[eq + 1..];
    assert arg[..eq] == "--" + arg[..eq][2..];
  }

  lemma ApartIsWritten(specs: seq<FlagSpec>, argv: seq<string>, spec: FlagSpec, how: Spelling)
    requires argv != [] && ReadApart(spec, argv, how).Ok? && !how.Inline?
    requires how.Apart? ==>
               argv[0] == "--" + spec.name && spec.name != "" && '=' !in spec.name
                   && LongSpec(specs, spec.name) == Some(spec)
    requires how.Letter? ==>
               argv[0] == ['-', how.letter] && IsLetter(how.letter) && FindShort(specs, [how.letter]) == Some(spec)
    ensures var item := ReadApart(spec, argv, how).value;
            Legal(specs, item) && Tokens(item) <= argv && Tokens(item) != []
  {
    var item := ReadApart(spec, argv, how).value;
    assert Tokens(item) == [argv[0]] + Trailing(item.value);
  }

  /** What is read was written: it is legal and its tokens come first. */
  lemma ReadIsWritten(specs: seq<FlagSpec>, argv: seq<string>)
    requires argv != [] && argv[0] != "--" && ReadItem(specs, argv).Ok?
    ensures var item := ReadItem(specs, argv).value;
            Legal(specs, item) && Tokens(item) <= argv && Tokens(item) != []
  {
    var arg, item := argv[0], ReadItem(specs, argv).value;
    if IsLong(arg) {
      var eq := IndexOf(arg, '=');
      if eq.Some? {
        InlineParts(arg, eq.value);
        assert Tokens(item) == [arg];
      } else {
        assert arg == "--" + arg[2..];
        ApartIsWritten(specs, argv, LongSpec(specs, arg[2..]).value, Apart);
      }
    } else if IsShort(arg) {
      assert arg[1..] == [arg[1]] && arg == ['-', arg[1]];
      ApartIsWritten(specs, argv, FindShort(specs, arg[1..]).value, Letter(arg[1]));
    }
  }

  /** What is written is read, whatever follows. */
  lemma WrittenIsRead(specs: seq<FlagSpec>, item: Item, rest: seq<string>)
    requires Legal(specs, item)
    ensures Tokens(item)[0] != "--"
    ensures ReadItem(specs, Tokens(item) + rest) == Ok(item)
  {
    var argv := Tokens(item) + rest;
    var arg := argv[0];
    match item
    case Positional(_) =>
    case Flag(spec, value, Inline) =>
      var name := "--" + spec.name;
      assert arg == name + ['='] + Show(value);
      IndexOfFirst(name, Show(value), '=');
      assert arg[..|name|] == name && name[2..] == spec.name && arg[|name| + 1..] == Show(value);
      assert arg[|name|] == '=' && |arg| > 2;
    case Flag(spec, value, Apart) =>
      assert arg[2..] == spec.name && '=' !in arg && |arg| > 2;
    case Flag(_, _, Letter(c)) =>
      assert arg[1..] == [c] && !IsLong(arg);
  }

  // -------------------------------------------------------------- parsing

  function Read(specs: seq<FlagSpec>, argv: seq<string>): Result<(seq<Item>, seq<string>), UsageError>
    decreases |argv|
  {
    if argv == [] then Ok(([], []))
    else if argv[0] == "--" then Ok(([], argv[1..]))
    else
      var item := ReadItem(specs, argv);
      if item.Err? then Err(item.error)
      else
        ReadIsWritten(specs, argv);
        After([item.value], Read(specs, argv[|Tokens(item.value)|..]))
  }

  function After(items: seq<Item>, r: Result<(seq<Item>, seq<string>), UsageError>)
    : Result<(seq<Item>, seq<string>), UsageError>
  {
    if r.Err? then r else Ok((items + r.value.0, r.value.1))
  }

  lemma ReadOne(specs: seq<FlagSpec>, item: Item, rest: seq<string>)
    requires Legal(specs, item)
    ensures Read(specs, Tokens(item) + rest) == After([item], Read(specs, rest))
  {
    WrittenIsRead(specs, item, rest);
    assert (Tokens(item) + rest)[|Tokens(item)|..] == rest;
  }

  lemma AfterAfter(items: seq<Item>, r: Result<(seq<Item>, seq<string>), UsageError>)
    requires items != []
    ensures After([items[0]], After(items[1..], r)) == After(items, r)
  {
    if r.Ok? {
      assert [items[0]] + (items[1..] + r.value.0) == items + r.value.0;
    }
  }

  /** Reading goes through written items unchanged, to whatever follows them, errors included. */
  lemma {:induction false} ReadThrough(specs: seq<FlagSpec>, items: seq<Item>, tail: seq<string>)
    requires AllLegal(specs, items)
    ensures Read(specs, AllTokens(items) + tail) == After(items, Read(specs, tail))
    decreases |items|
  {
    if items == [] {
      assert AllTokens(items) + tail == tail;
      assert Read(specs, tail).Ok? ==> [] + Read(specs, tail).value.0 == Read(specs, tail).value.0;
    } else {
      var item, more := items[0], AllTokens(items[1..]) + tail;
      assert AllTokens(items) + tail == Tokens(item) + more;
      ReadOne(specs, item, more);
      ReadThrough(specs, items[1..], tail);
      AfterAfter(items, Read(specs, tail));
    }
  }

  lemma WrittenNext(specs: seq<FlagSpec>, item: Item, tail: seq<string>, items: seq<Item>, rest: seq<string>)
    requires Legal(specs, item) && Written(specs, tail, items, rest)
    ensures Written(specs, Tokens(item) + tail, [item] + items, rest)
  {
    assert ([item] + items)[1..] == items;
    assert AllTokens([item] + items) == Tokens(item) + AllTokens(items);
    if tail == AllTokens(items) + ["--"] + rest {
      assert Tokens(item) + tail == AllTokens([item] + items) + ["--"] + rest;
    }
  }

  lemma {:induction false} ReadSound(specs: seq<FlagSpec>, argv: seq<string>)
    requires Read(specs, argv).Ok?
    ensures Written(specs, argv, Read(specs, argv).value.0, Read(specs, argv).value.1)
    decreases |argv|
  {
    if argv != [] && argv[0] != "--" {
      ReadIsWritten(specs, argv);
      var item := ReadItem(specs, argv).value;
      var tail := argv[|Tokens(item)|..];
      ReadSound(specs, tail);
      WrittenNext(specs, item, tail, Read(specs, tail).value.0, Read(specs, tail).value.1);
      assert argv == Tokens(item) + tail;
    } else if argv != [] {
      assert argv == AllTokens([]) + ["--"] + argv[1..];
    }
  }

  /** The argument lists that parse are the written ones, and each is written in one way only. */
  lemma ReadExactly(specs: seq<FlagSpec>, argv: seq<string>, items: seq<Item>, rest: seq<string>)
    ensures Read(specs, argv) == Ok((items, rest)) <==>
            Written(specs, argv, items, rest)
  {
    if Read(specs, argv) == Ok((items, rest)) {
      ReadSound(specs, argv);
    }
    if Written(specs, argv, items, rest) {
      if argv == AllTokens(items) + ["--"] + rest {
        assert argv == AllTokens(items) + (["--"] + rest);
        ReadThrough(specs, items, ["--"] + rest);
        assert (["--"] + rest)[1..] == rest;
      } else {
        assert argv == AllTokens(items) + [];
        ReadThrough(specs, items, []);
      }
      assert items + [] == items;
    }
  }

  /** What the parser is for: the result means what was written. */
  ghost predicate Means(specs: seq<FlagSpec>, argv: seq<string>, p: Parsed) {
    exists items, rest :: Written(specs, argv, items, rest) && p == Meaning(items, rest)
  }

  function ParsedOf(read: Result<(seq<Item>, seq<string>), UsageError>): Result<Parsed, UsageError> {
    match read
    case Ok(pair) => Ok(Meaning(pair.0, pair.1))
    case Err(e) => Err(e)
  }

  lemma ReadMeans(specs: seq<FlagSpec>, argv: seq<string>)
    ensures forall p :: ParsedOf(Read(specs, argv)) == Ok(p) <==> Means(specs, argv, p)
  {
    if Read(specs, argv).Ok? {
      ReadSound(specs, argv);
    }
    forall p | Means(specs, argv, p) ensures ParsedOf(Read(specs, argv)) == Ok(p) {
      var items, rest :| Written(specs, argv, items, rest) && p == Meaning(items, rest);
      ReadExactly(specs, argv, items, rest);
    }
  }

  /** The flag at `argv[i]`, with its value and the number of arguments it takes up. */
  method TakeFlag(
      specs: seq<FlagSpec>, argv: seq<string>, i: nat)
    returns (r: Result<(FlagSpec, Value, nat), UsageError>)
    requires i < |argv| && argv[i] != "--" && (IsLong(argv[i]) || IsShort(argv[i]))
    ensures r.Err? ==> ReadItem(specs, argv[i..]) == Err(r.error)
    ensures r.Ok? ==>
              && ReadItem(specs, argv[i..]).Ok? && ReadItem(specs, argv[i..]).value.Flag?
              && ReadItem(specs, argv[i..]).value.spec == r.value.0
              && ReadItem(specs, argv[i..]).value.value == r.value.1
              && |Tokens(ReadItem(specs, argv[i..]).value)| == r.value.2
  {
    var arg := argv[i];
    var eq := if IsLong(arg) then IndexOf(arg, '=') else None;
    var name := if eq.None? then arg else arg[..eq.value];
    if eq.Some? {
      InlineParts(arg, eq.value);
    }
    var inline := if eq.None? then None else Some(arg[eq.value + 1..]);
    var found := if IsLong(arg) then LongSpec(specs, name[2..]) else FindShort(specs, name[1..]);
    if found.None? {
      return Err(UnknownFlag(name));
    }
    var spec := found.value;
    if spec.takesValue {
      if inline.Some? {
        return Ok((spec, Text(inline.value), 1));
      }
      if i + 1 >= |argv| {
        return Err(MissingValue(arg));
      }
      return Ok((spec, Text(argv[i + 1]), 2));
    } else if inline.Some? {
      if inline.value == "true" {
        return Ok((spec, Truth(true), 1));
      } else if inline.value == "false" {
        return Ok((spec, Truth(false), 1));
      }
      return Err(NotBoolean(name));
    }
    return Ok((spec, Truth(true), 1));
  }

  /** The arguments before `i` are the items `done`, which mean `p` so far. */
  ghost predicate Taken(specs: seq<FlagSpec>, argv: seq<string>, i: nat, done: seq<Item>, p: Parsed) {
    i <= |argv| && AllLegal(specs, done) && argv[..i] == AllTokens(done) && Accumulated(done) == p
  }

  lemma {:induction false} AllTokensNext(items: seq<Item>, item: Item)
    ensures AllTokens(items + [item]) == AllTokens(items) + Tokens(item)
  {
    if items == [] {
      assert AllTokens([item]) == Tokens(item) + AllTokens([]);
    } else {
      assert (items + [item])[1..] == items[1..] + [item];
      AllTokensNext(items[1..], item);
    }
  }

  lemma TakenNext(
      specs: seq<FlagSpec>, argv: seq<string>, i: nat, done: seq<Item>, p: Parsed, item: Item, next: Parsed)
    requires Taken(specs, argv, i, done, p) && i < |argv| && argv[i] != "--"
    requires ReadItem(specs, argv[i..]) == Ok(item) && next == Applied(p, item)
    ensures Tokens(item) != [] && Taken(specs, argv, i + |Tokens(item)|, done + [item], next)
  {
    ReadIsWritten(specs, argv[i..]);
    AllTokensNext(done, item);
    assert (done + [item])[..|done|] == done;
    assert argv[..i + |Tokens(item)|] == argv[..i] + argv[i..][..|Tokens(item)|];
  }

  lemma TakenReads(specs: seq<FlagSpec>, argv: seq<string>, i: nat, done: seq<Item>, p: Parsed)
    requires Taken(specs, argv, i, done, p)
    ensures Read(specs, argv) == After(done, Read(specs, argv[i..]))
  {
    ReadThrough(specs, done, argv[i..]);
    assert argv == argv[..i] + argv[i..];
  }

  lemma TakenFails(specs: seq<FlagSpec>, argv: seq<string>, i: nat, done: seq<Item>, p: Parsed, e: UsageError)
    requires Taken(specs, argv, i, done, p) && i < |argv| && argv[i] != "--"
    requires ReadItem(specs, argv[i..]) == Err(e)
    ensures ParsedOf(Read(specs, argv)) == Err(e)
  {
    TakenReads(specs, argv, i, done, p);
  }

  lemma TakenStops(specs: seq<FlagSpec>, argv: seq<string>, i: nat, done: seq<Item>, p: Parsed)
    requires Taken(specs, argv, i, done, p) && i < |argv| && argv[i] == "--"
    ensures ParsedOf(Read(specs, argv)) == Ok(p.(positionals := p.positionals + argv[i + 1..]))
  {
    TakenReads(specs, argv, i, done, p);
    assert argv[i..][1..] == argv[i + 1..] && done + [] == done;
  }

  lemma TakenEnds(specs: seq<FlagSpec>, argv: seq<string>, done: seq<Item>, p: Parsed)
    requires Taken(specs, argv, |argv|, done, p)
    ensures ParsedOf(Read(specs, argv)) == Ok(p)
  {
    TakenReads(specs, argv, |argv|, done, p);
    assert done + [] == done && p.positionals + [] == p.positionals;
  }

  /** The loop over the arguments. */
  method ParseInvocation(specs: seq<FlagSpec>, argv: seq<string>) returns (r: Result<Parsed, UsageError>)
    ensures r == ParsedOf(Read(specs, argv))
    ensures forall p :: r == Ok(p) <==> Means(specs, argv, p)
  {
    var positionals: seq<string>, flags: map<string, Value>, multi: map<string, seq<string>> := [], map[], map[];
    ghost var done: seq<Item> := [];
    var i := 0;
    ReadMeans(specs, argv);
    while i < |argv|
      invariant Taken(specs, argv, i, done, Parsed(positionals, flags, multi))
      decreases |argv| - i
    {
      var arg := argv[i];
      ghost var before := Parsed(positionals, flags, multi);
      if arg == "--" {
        TakenStops(specs, argv, i, done, before);
        positionals := positionals + argv[i + 1..];
        break;
      }
      if IsLong(arg) || IsShort(arg) {
        var flag := TakeFlag(specs, argv, i);
        if flag.Err? {
          TakenFails(specs, argv, i, done, before, flag.error);
          return Err(flag.error);
        }
        ghost var item := ReadItem(specs, argv[i..]).value;
        var (spec, value, used) := flag.value;
        flags := flags[spec.name := value];
        if spec.multiple && value.Text? {
          multi := Pushed(multi, spec.name, value.text);
        }
        TakenNext(specs, argv, i, done, before, item, Parsed(positionals, flags, multi));
        done := done + [item];
        i := i + used;
      } else {
        positionals := positionals + [arg];
        TakenNext(specs, argv, i, done, before, Positional(arg), Parsed(positionals, flags, multi));
        done := done + [Positional(arg)];
        i := i + 1;
      }
    }
    if i == |argv| {
      TakenEnds(specs, argv, done, Parsed(positionals, flags, multi));
    }
    return Ok(Parsed(positionals, flags, multi));
  }

  // ------------------------------------------------------------- failures

  /** What follows cannot be read: `e` says which of its first arguments is wrong, and how. */
  ghost predicate Offends(specs: seq<FlagSpec>, tail: seq<string>, e: UsageError) {
    && tail != [] && tail[0] != "--"
    && match e
       case UnknownFlag(flag) =>
         || (IsShort(flag) && tail[0] == flag && forall spec | spec in specs :: spec.short != Some(flag[1..]))
         || (IsLong(flag) && '=' !in flag && (tail[0] == flag || flag + "=" <= tail[0])
             && LongSpec(specs, flag[2..]).None?)
       case MissingValue(arg) =>
         && tail == [arg]
         && ((IsShort(arg) && exists i: nat :: FirstShort(specs, i, arg[1..]) && specs[i].takesValue)
             || (IsLong(arg) && '=' !in arg && LongSpec(specs, arg[2..]).Some?
                 && LongSpec(specs, arg[2..]).value.takesValue))
       case NotBoolean(flag) =>
         && IsLong(flag) && '=' !in flag && flag + "=" <= tail[0]
         && tail[0] != flag + "=true" && tail[0] != flag + "=false"
         && LongSpec(specs, flag[2..]).Some? && !LongSpec(specs, flag[2..]).value.takesValue
  }

  function LongName(arg: string): string {
    var eq := IndexOf(arg, '=');
    if eq.None? then arg else arg[..eq.value]
  }

  /** A flag before the first `=` of the argument. */
  lemma BeforeEquals(arg: string, flag: string)
    requires IndexOf(arg, '=').Some?
    ensures '=' !in flag && flag + "=" <= arg <==> flag == arg[..IndexOf(arg, '=').value]
  {
    var eq := IndexOf(arg, '=').value;
    assert arg[..eq] + "=" == arg[..eq + 1];
    if '=' !in flag && flag + "=" <= arg {
      assert arg == flag + ['='] + arg[|flag| + 1..];
      IndexOfFirst(flag, arg[|flag| + 1..], '=');
    }
  }

  lemma EqualsInside(arg: string, flag: string)
    ensures flag + "=" <= arg ==> '=' in arg
  {
    assert flag + "=" <= arg ==> arg[|flag|] == '=';
  }

  lemma LongNameExactly(arg: string, flag: string)
    requires IsLong(arg)
    ensures IsLong(LongName(arg)) && '=' !in LongName(arg)
    ensures '=' !in flag && (arg == flag || flag + "=" <= arg) <==> flag == LongName(arg)
  {
    var eq := IndexOf(arg, '=');
    if eq.Some? {
      assert eq.value != 0 && eq.value != 1;
      BeforeEquals(arg, flag);
    } else {
      EqualsInside(arg, flag);
    }
  }

  lemma InlineIs(arg: string, text: string)
    requires IsLong(arg) && IndexOf(arg, '=').Some?
    ensures arg == LongName(arg) + "=" + text <==> arg[IndexOf(arg, '=').value + 1..] == text
  {
    var eq := IndexOf(arg, '=').value;
    assert arg == arg[..eq] + "=" + arg[eq + 1..];
    if arg == LongName(arg) + "=" + text {
      assert arg[eq + 1..] == text;
    }
  }

  lemma ShortOffends(specs: seq<FlagSpec>, tail: seq<string>, e: UsageError)
    requires tail != [] && IsShort(tail[0]) && !IsLong(tail[0])
    ensures ReadItem(specs, tail) == Err(e) <==> Offends(specs, tail, e)
  {
    var arg, spec := tail[0], FindShort(specs, tail[0][1..]);
    FindsNoShort(specs, arg[1..]);
    if e.MissingValue? && spec.Some? {
      FoundIsFirstShort(specs, arg[1..]);
    }
    forall i: nat | FirstShort(specs, i, arg[1..]) ensures spec == Some(specs[i]) {
      FindsFirstShort(specs, arg[1..], i);
    }
  }

  lemma LongUnknown(specs: seq<FlagSpec>, tail: seq<string>, flag: string)
    requires tail != [] && IsLong(tail[0]) && tail[0] != "--"
    ensures ReadItem(specs, tail) == Err(UnknownFlag(flag)) <==> Offends(specs, tail, UnknownFlag(flag))
  {
    LongNameExactly(tail[0], flag);
  }

  lemma LongMissing(specs: seq<FlagSpec>, tail: seq<string>, arg: string)
    requires tail != [] && IsLong(tail[0]) && tail[0] != "--"
    ensures ReadItem(specs, tail) == Err(MissingValue(arg)) <==> Offends(specs, tail, MissingValue(arg))
  {
    LongNameExactly(tail[0], arg);
  }

  /** The argument sets a boolean flag to a text that is neither `true` nor `false`. */
  predicate SetsBadly(specs: seq<FlagSpec>, arg: string, flag: string) {
    && flag == LongName(arg) && IndexOf(arg, '=').Some? && IsLong(flag)
    && LongSpec(specs, flag[2..]).Some? && !LongSpec(specs, flag[2..]).value.takesValue
    && arg != flag + "=" + "true" && arg != flag + "=" + "false"
  }

  lemma ReadNotBoolean(specs: seq<FlagSpec>, tail: seq<string>, flag: string)
    requires tail != [] && IsLong(tail[0]) && tail[0] != "--"
    ensures ReadItem(specs, tail) == Err(NotBoolean(flag)) <==> SetsBadly(specs, tail[0], flag)
  {
    LongNameExactly(tail[0], flag);
    if IndexOf(tail[0], '=').Some? {
      InlineIs(tail[0], "true");
      InlineIs(tail[0], "false");
    }
  }

  lemma LongNotBoolean(specs: seq<FlagSpec>, tail: seq<string>, flag: string)
    requires tail != [] && IsLong(tail[0]) && tail[0] != "--"
    ensures SetsBadly(specs, tail[0], flag) <==> Offends(specs, tail, NotBoolean(flag))
  {
    LongNameExactly(tail[0], flag);
    EqualsInside(tail[0], flag);
    assert flag + "=" + "true" == flag + "=true" && flag + "=" + "false" == flag + "=false";
    if IndexOf(tail[0], '=').Some? {
      BeforeEquals(tail[0], flag);
    }
  }

  lemma OffendsExactly(specs: seq<FlagSpec>, tail: seq<string>, e: UsageError)
    requires tail != [] && tail[0] != "--"
    ensures ReadItem(specs, tail) == Err(e) <==> Offends(specs, tail, e)
  {
    if IsLong(tail[0]) {
      match e
      case UnknownFlag(flag) => LongUnknown(specs, tail, flag);
      case MissingValue(arg) => LongMissing(specs, tail, arg);
      case NotBoolean(flag) =>
        ReadNotBoolean(specs, tail, flag);
        LongNotBoolean(specs, tail, flag);
    } else if IsShort(tail[0]) {
      ShortOffends(specs, tail, e);
    }
  }

  /** After items that can be read, the rest cannot. */
  ghost predicate Stuck(specs: seq<FlagSpec>, argv: seq<string>, items: seq<Item>, tail: seq<string>, e: UsageError) {
    AllLegal(specs, items) && argv == AllTokens(items) + tail && Offends(specs, tail, e)
  }

  lemma StuckNext(
      specs: seq<FlagSpec>, item: Item, argv: seq<string>, items: seq<Item>, tail: seq<string>, e: UsageError)
    requires Legal(specs, item) && Stuck(specs, argv, items, tail, e)
    ensures Stuck(specs, Tokens(item) + argv, [item] + items, tail, e)
  {
    assert ([item] + items)[1..] == items;
    assert Tokens(item) + (AllTokens(items) + tail) == Tokens(item) + AllTokens(items) + tail;
  }

  lemma {:induction false} FailureIsStuck(specs: seq<FlagSpec>, argv: seq<string>, e: UsageError)
    returns (items: seq<Item>, tail: seq<string>)
    requires Read(specs, argv) == Err(e)
    ensures Stuck(specs, argv, items, tail, e)
    decreases |argv|
  {
    var read := ReadItem(specs, argv);
    if read.Err? {
      OffendsExactly(specs, argv, e);
      items, tail := [], argv;
    } else {
      var item := read.value;
      ReadIsWritten(specs, argv);
      assert argv == Tokens(item) + argv[|Tokens(item)|..];
      items, tail := FailureIsStuck(specs, argv[|Tokens(item)|..], e);
      StuckNext(specs, item, argv[|Tokens(item)|..], items, tail, e);
      items := [item] + items;
    }
  }

  /** The parser fails with an error exactly where the first arguments that cannot be read call for it. */
  lemma FailsExactly(specs: seq<FlagSpec>, argv: seq<string>, e: UsageError)
    ensures ParsedOf(Read(specs, argv)) == Err(e) <==> exists items, tail :: Stuck(specs, argv, items, tail, e)
  {
    if Read(specs, argv) == Err(e) {
      var items, tail := FailureIsStuck(specs, argv, e);
      assert Stuck(specs, argv, items, tail, e);
    }
    forall items, tail | Stuck(specs, argv, items, tail, e) ensures Read(specs, argv) == Err(e) {
      ReadThrough(specs, items, tail);
      OffendsExactly(specs, tail, e);
    }
  }

  // -------------------------------------------------------------- printing

  /** A flag assignment printed inline, which every legal item with a plain name can be. */
  function Inlined(item: Item): Item {
    if item.Flag? then item.(how := Inline) else item
  }

  /**
   Any assignment of declared flags, in any spelling and with any positionals
   in between, then `--` and any positionals at all, parses back to itself.
   */
  lemma PrintedParses(specs: seq<FlagSpec>, items: seq<Item>, rest: seq<string>, name: string, value: Value)
    requires Distinct(specs) && forall item | item in items :: Spelled(specs, item)
    ensures var r := ParsedOf(Read(specs, AllTokens(items) + ["--"] + rest));
            && r.Ok? && r.value.positionals == PositionalsOf(items) + rest
            && (name in r.value.flags && r.value.flags[name] == value <==> LastGiven(items, name, value))
            && (if name in r.value.multi then r.value.multi[name] else []) == ValuesOf(items, name)
  {
    forall item | item in items ensures Legal(specs, item) {
      LegalExactly(specs, item);
    }
    ReadExactly(specs, AllTokens(items) + ["--"] + rest, items, rest);
    MeaningExactly(items, rest, name, value);
  }

  /** With each flag given once, the parsed flags are the assignment itself. */
  lemma DistinctAssignment(items: seq<Item>, i: nat)
    requires i < |items| && items[i].Flag?
    requires forall j, k | 0 <= j < k < |items| && items[j].Flag? && items[k].Flag? ::
               items[j].spec.name != items[k].spec.name
    ensures LastGiven(items, items[i].spec.name, items[i].value)
  {
    assert LastGivenAt(items, items[i].spec.name, items[i].value, i);
  }

  /**
   Between the same other arguments, however those continue, two tokens and one inline mean the same, or fail alike.
   */
  lemma TwoTokensAreInline(specs: seq<FlagSpec>, before: seq<Item>, item: Item, tail: seq<string>)
    requires AllLegal(specs, before) && Legal(specs, item) && item.Flag? && item.how.Apart? && item.value.Text?
    ensures ParsedOf(Read(specs, AllTokens(before) + ["--" + item.spec.name, item.value.text] + tail))
            == ParsedOf(Read(specs, AllTokens(before) + ["--" + item.spec.name + "=" + item.value.text] + tail))
  {
    ThroughItem(specs, before, item, tail);
    ThroughItem(specs, before, Inlined(item), tail);
    assert Tokens(item) == ["--" + item.spec.name, item.value.text];
    AfterSpelling(before, item, Read(specs, tail));
  }

  lemma AfterSpelling(before: seq<Item>, item: Item, r: Result<(seq<Item>, seq<string>), UsageError>)
    requires item.Flag?
    ensures ParsedOf(After(before + [item], r)) == ParsedOf(After(before + [Inlined(item)], r))
  {
    if r.Ok? {
      SpellingIsNoMeaning(before, item, Inlined(item), r.value.0);
    }
  }

  lemma ThroughItem(specs: seq<FlagSpec>, before: seq<Item>, item: Item, tail: seq<string>)
    requires AllLegal(specs, before) && Legal(specs, item)
    ensures Read(specs, AllTokens(before) + Tokens(item) + tail) == After(before + [item], Read(specs, tail))
  {
    AllTokensNext(before, item);
    ReadThrough(specs, before + [item], tail);
  }

  lemma {:induction false} SpellingIsNoMeaning(before: seq<Item>, item: Item, twin: Item, after: seq<Item>)
    requires item.Flag? && twin.Flag? && item.spec == twin.spec && item.value == twin.value
    ensures Accumulated(before + [item] + after) == Accumulated(before + [twin] + after)
  {
    var a, b, n := before + [item] + after, before + [twin] + after, |after| - 1;
    if after == [] {
      assert a[..|a| - 1] == before == b[..|b| - 1];
      assert a[|a| - 1] == item && b[|b| - 1] == twin;
    } else {
      SpellingIsNoMeaning(before, item, twin, after[..n]);
      assert a[..|a| - 1] == before + [item] + after[..n] && b[..|b| - 1] == before + [twin] + after[..n];
      assert a[|a| - 1] == after[n] == b[|b| - 1];
    }
  }
}
