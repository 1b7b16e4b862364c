/**
 * Command-line arguments: the enum of known arguments, parsing of
 * `-name=value` strings into a map, the property-file and interactive
 * rules of `build`, and the bag that answers questions about the map.
 */
module Arg {
  import opened Wrappers
  import opened Strings
  import Seqs

  /** The known arguments, in declaration order. */
  datatype Argument = OriginalFile | ChangedFile | OutputDir | PropertyFile
                    | IncludeTables | ExcludeTables | Interactive | Lazy
  {
    /** The constructor data of each constant: definition, isFlag, isRequired. */
    function Info(): (string, bool, bool) {
      match this
      case OriginalFile => ("oFile", false, true)
      case ChangedFile => ("cFile", false, true)
      case OutputDir => ("oDir", false, true)
      case PropertyFile => ("pFile", false, false)
      case IncludeTables => ("inTables", false, false)
      case ExcludeTables => ("exTables", false, false)
      case Interactive => ("interactive", true, false)
      case Lazy => ("lazy", true, false)
    }

    function Definition(): string { Info().0 }

    predicate IsFlag() { Info().1 }

    predicate IsRequired() { Info().2 }

    /** toString is the definition; a definition is never empty and is made of word characters. */
    function ToString(): (r: string)
      ensures r == Definition()
      ensures r != [] && forall i :: 0 <= i < |r| ==> IsWordChar(r[i])
    {
      Definition()
    }
  }

  /** Argument.values(). */
  const Values: seq<Argument> :=
    [OriginalFile, ChangedFile, OutputDir, PropertyFile, IncludeTables, ExcludeTables, Interactive, Lazy]

  lemma AllListed(a: Argument)
    ensures a in Values
  {
    match a
    case OriginalFile => assert Values[0] == a;
    case ChangedFile => assert Values[1] == a;
    case OutputDir => assert Values[2] == a;
    case PropertyFile => assert Values[3] == a;
    case IncludeTables => assert Values[4] == a;
    case ExcludeTables => assert Values[5] == a;
    case Interactive => assert Values[6] == a;
    case Lazy => assert Values[7] == a;
  }

  /** No two constants share a definition. */
  lemma DefinitionsDistinct(a: Argument, b: Argument)
    ensures a.Definition() == b.Definition() ==> a == b
  {
  }

  /** The flags are exactly interactive and lazy, and no flag is required. */
  lemma FlagsAre(a: Argument)
    ensures a.IsFlag() <==> a == Interactive || a == Lazy
    ensures a.IsFlag() ==> !a.IsRequired()
  {
  }

  /** The required ones among `args`, in order. */
  function RequiredOf(args: seq<Argument>): seq<Argument> {
    if args == [] then []
    else
      var last := args[|args| - 1];
      RequiredOf(args[..|args| - 1]) + (if last.IsRequired() then [last] else [])
  }

  function RequiredList(): seq<Argument> {
    RequiredOf(Values)
  }

  /** Filtering the declaration order leaves oFile, cFile and oDir. */
  lemma RequiredListIs()
    ensures RequiredList() == [OriginalFile, ChangedFile, OutputDir]
  {
    var v := Values;
    assert RequiredOf(v[..0]) == [];
    assert v[..1][..0] == v[..0];
    assert RequiredOf(v[..1]) == [OriginalFile];
    assert v[..2][..1] == v[..1];
    assert RequiredOf(v[..2]) == [OriginalFile, ChangedFile];
    assert v[..3][..2] == v[..2];
    assert RequiredOf(v[..3]) == [OriginalFile, ChangedFile, OutputDir];
    assert v[..4][..3] == v[..3];
    assert RequiredOf(v[..4]) == RequiredOf(v[..3]);
    assert v[..5][..4] == v[..4];
    assert RequiredOf(v[..5]) == RequiredOf(v[..4]);
    assert v[..6][..5] == v[..5];
    assert RequiredOf(v[..6]) == RequiredOf(v[..5]);
    assert v[..7][..6] == v[..6];
    assert RequiredOf(v[..7]) == RequiredOf(v[..6]);
    assert v[..8][..7] == v[..7];
    assert RequiredOf(v[..8]) == RequiredOf(v[..7]);
    assert v[..8] == v;
  }

  /** Argument.getRequiredList: the required arguments in declaration order, which are exactly oFile, cFile and oDir. */
  method GetRequiredList() returns (result: seq<Argument>)
    ensures result == RequiredList()
    ensures result == [OriginalFile, ChangedFile, OutputDir]
  {
    result := [];
    for i := 0 to |Values|
      invariant result == RequiredOf(Values[..i])
    {
      assert Values[..i + 1][..i] == Values[..i];
      if Values[i].IsRequired() {
        result := result + [Values[i]];
      }
    }
    assert Values[..|Values|] == Values;
    RequiredListIs();
  }

  /** First constant of `args` whose definition equals `definition`. */
  function FindDefinition(args: seq<Argument>, definition: string): (r: Option<Argument>)
    ensures r.Some? ==> r.value in args && r.value.Definition() == definition
    ensures r.None? ==> forall a :: a in args ==> a.Definition() != definition
  {
    if args == [] then None
    else if args[0].Definition() == definition then Some(args[0])
    else FindDefinition(args[1..], definition)
  }

  function Lookup(definition: string): Option<Argument> {
    FindDefinition(Values, definition)
  }

  /** Lookup finds the constant with that definition, and nothing when there is none. */
  lemma LookupMeans(definition: string, a: Argument)
    ensures Lookup(definition) == Some(a) <==> a.Definition() == definition
  {
    AllListed(a);
    var r := Lookup(definition);
    if r.Some? {
      DefinitionsDistinct(a, r.value);
    }
  }

  /** Argument.getArgument: a scan over the constants that returns at the first equal definition. */
  method GetArgument(definition: string) returns (r: Option<Argument>)
    ensures r == Lookup(definition)
  {
    for i := 0 to |Values|
      invariant forall k :: 0 <= k < i ==> Values[k].Definition() != definition
    {
      if Values[i].Definition() == definition {
        LookupMeans(definition, Values[i]);
        return Some(Values[i]);
      }
    }
    r := None;
    if Lookup(definition).Some? {
      var a := Lookup(definition).value;
      AllListed(a);
    }
  }

  /** The text of an argument: `-name` or `-name=value`. */
  function ArgText(name: string, value: Option<string>): string {
    "-" + name + (if value.Some? then "=" + value.value else "")
  }

  /**
   * A full match of `-(\w+)(=(.*))?`, returning group 1 and group 3
   * (None when the optional group did not take part).
   */
  function MatchArg(arg: string): (r: Option<(string, Option<string>)>)
    ensures r.Some? ==> IsWord(r.value.0) && arg == ArgText(r.value.0, r.value.1)
    ensures r.Some? && r.value.1.Some? ==> AllLineChars(r.value.1.value)
  {
    if arg == [] || arg[0] != '-' then None
    else
      var body := arg[1..];
      var n := WordLen(body);
      if n == 0 then None
      else if n == |body| then
        assert arg == "-" + body;
        Some((body, None))
      else if body[n] == '=' && AllLineChars(body[n + 1..]) then
        assert body == body[..n] + "=" + body[n + 1..];
        assert arg == "-" + body;
        Some((body[..n], Some(body[n + 1..])))
      else None
  }

  /** Every word name with an optional line of value is matched back to its parts. */
  lemma MatchArgText(name: string, value: Option<string>)
    requires IsWord(name)
    requires value.Some? ==> AllLineChars(value.value)
    ensures MatchArg(ArgText(name, value)) == Some((name, value))
  {
    var arg := ArgText(name, value);
    var rest := if value.Some? then "=" + value.value else "";
    assert arg == "-" + (name + rest);
    assert arg[0] == '-' && arg[1..] == name + rest;
    WordLenOfWord(name, rest);
    if value.Some? {
      var body := name + rest;
      assert body[|name|] == '=';
      assert body[|name| + 1..] == value.value;
      assert body[..|name|] == name;
      assert MatchArg(arg) == Some((body[..|name|], Some(body[|name| + 1..])));
    } else {
      assert arg[1..] == name;
    }
  }

  /**
   * The map entry one argument contributes: only a match with a known name
   * counts; a flag's value is its own name, anything else keeps group 3.
   */
  function Entry(arg: string): Option<(string, Option<string>)> {
    var m := MatchArg(arg);
    if m.None? then None
    else
      var known := Lookup(m.value.0);
      if known.None? then None
      else Some((m.value.0, if known.value.IsFlag() then Some(m.value.0) else m.value.1))
  }

  /** The map after putting every entry in turn. */
  function Parsed(args: seq<string>): map<string, Option<string>> {
    if args == [] then map[]
    else
      var init := Parsed(args[..|args| - 1]);
      var e := Entry(args[|args| - 1]);
      if e.Some? then init[e.value.0 := e.value.1] else init
  }

  /** ArgumentProcessor.parseArguments. */
  method ParseArguments(args: seq<string>) returns (result: map<string, Option<string>>)
    ensures result == Parsed(args)
  {
    result := map[];
    for i := 0 to |args|
      invariant result == Parsed(args[..i])
    {
      ParsedStep(args, i);
      var m := MatchArg(args[i]);
      if m.Some? {
        var argDef := m.value.0;
        var argEnum := GetArgument(argDef);
        if argEnum.Some? {
          var argValue := if argEnum.value.IsFlag() then Some(argDef) else m.value.1;
          result := result[argDef := argValue];
        }
      }
    }
    assert args[..|args|] == args;
  }

  /** One argument further, its entry (if any) is put into the map. */
  lemma ParsedStep(args: seq<string>, i: nat)
    requires i < |args|
    ensures var e := Entry(args[i]);
      Parsed(args[..i + 1]) == if e.Some? then Parsed(args[..i])[e.value.0 := e.value.1] else Parsed(args[..i])
  {
    assert args[..i + 1][..i] == args[..i];
  }

  /** Every key of the parsed map names a known argument, and a flag's value is its own name. */
  lemma {:induction false} ParsedKnown(args: seq<string>, k: string)
    requires k in Parsed(args)
    ensures Lookup(k).Some?
    ensures Lookup(k).value.IsFlag() ==> Parsed(args)[k] == Some(k)
    decreases |args|
  {
    var init := args[..|args| - 1];
    var e := Entry(args[|args| - 1]);
    if e.Some? && e.value.0 == k {
    } else {
      ParsedKnown(init, k);
    }
  }

  /** Every key of the parsed map was contributed by some argument. */
  lemma {:induction false} ParsedKeySource(args: seq<string>, k: string) returns (i: nat)
    requires k in Parsed(args)
    ensures i < |args| && Entry(args[i]).Some? && Entry(args[i]).value.0 == k
    decreases |args|
  {
    var init := args[..|args| - 1];
    var e := Entry(args[|args| - 1]);
    if e.Some? && e.value.0 == k {
      i := |args| - 1;
    } else {
      i := ParsedKeySource(init, k);
      assert init[i] == args[i];
    }
  }

  /** Every argument that contributes an entry puts its key into the parsed map. */
  lemma {:induction false} ParsedKeyPresent(args: seq<string>, i: nat)
    requires i < |args| && Entry(args[i]).Some?
    ensures Entry(args[i]).value.0 in Parsed(args)
    decreases |args|
  {
    if i < |args| - 1 {
      var init := args[..|args| - 1];
      assert init[i] == args[i];
      ParsedKeyPresent(init, i);
    }
  }

  /** For a repeated argument the last occurrence wins. */
  lemma {:induction false} ParsedLastWins(args: seq<string>, i: nat)
    requires i < |args| && Entry(args[i]).Some?
    requires forall j :: i < j < |args| ==> Entry(args[j]).None? || Entry(args[j]).value.0 != Entry(args[i]).value.0
    ensures Entry(args[i]).value.0 in Parsed(args)
    ensures Parsed(args)[Entry(args[i]).value.0] == Entry(args[i]).value.1
    decreases |args|
  {
    if i < |args| - 1 {
      var init := args[..|args| - 1];
      assert init[i] == args[i];
      forall j | i < j < |init|
        ensures Entry(init[j]).None? || Entry(init[j]).value.0 != Entry(init[i]).value.0
      {
        assert init[j] == args[j];
      }
      ParsedLastWins(init, i);
    }
  }

  /** ArgumentProcessor.removeAll: deletes the given keys one by one. */
  method RemoveAll(m: map<string, Option<string>>, keys: seq<string>) returns (r: map<string, Option<string>>)
    ensures forall k :: k in r <==> k in m && k !in keys
    ensures forall k :: k in r ==> r[k] == m[k]
  {
    r := m;
    for i := 0 to |keys|
      invariant forall k :: k in r <==> k in m && k !in keys[..i]
      invariant forall k :: k in r ==> r[k] == m[k]
    {
      assert keys[..i + 1] == keys[..i] + [keys[i]];
      r := r - {keys[i]};
    }
    assert keys[..|keys|] == keys;
  }

  /** The definitions of the required arguments: oFile, cFile, oDir. */
  function RequiredDefinitions(): seq<string> {
    Seqs.Map((a: Argument) => a.Definition(), RequiredList())
  }

  /** The map `build` passes to the bag; `load` reads the property file named by pFile. */
  function Built(args: seq<string>, load: Option<string> -> seq<string>): map<string, Option<string>> {
    var arguments := Parsed(args);
    if PropertyFile.Definition() in arguments then Parsed(load(arguments[PropertyFile.Definition()]))
    else if Interactive.Definition() in arguments then
      map k | k in arguments && k !in RequiredDefinitions() :: arguments[k]
    else arguments
  }

  /** ArgumentProcessor.build. */
  method Build(args: seq<string>, load: Option<string> -> seq<string>) returns (bag: ArgumentBag)
    ensures fresh(bag)
    ensures bag.arguments == Built(args, load)
  {
    var arguments := ParseArguments(args);
    if PropertyFile.Definition() in arguments {
      var propertyPath := arguments[PropertyFile.Definition()];
      var values := load(propertyPath);
      arguments := ParseArguments(values);
    } else if Interactive.Definition() in arguments {
      var required := GetRequiredList();
      var exclude := Seqs.Map((a: Argument) => a.Definition(), required);
      var before := arguments;
      arguments := RemoveAll(arguments, exclude);
      assert arguments == map k | k in before && k !in RequiredDefinitions() :: before[k];
    }
    bag := new ArgumentBag(arguments);
  }

  lemma RequiredDefinitionsAre()
    ensures RequiredDefinitions() == ["oFile", "cFile", "oDir"]
  {
    RequiredListIs();
    var f := (a: Argument) => a.Definition();
    Seqs.MapIndex(f, RequiredList(), 0);
    Seqs.MapIndex(f, RequiredList(), 1);
    Seqs.MapIndex(f, RequiredList(), 2);
  }

  /**
   * Without pFile and with interactive, the built map drops exactly the
   * required arguments and keeps every other entry unchanged; the bag then
   * meets its claims.
   */
  lemma InteractiveDropsRequired(args: seq<string>, load: Option<string> -> seq<string>)
    requires PropertyFile.Definition() !in Parsed(args)
    requires Interactive.Definition() in Parsed(args)
    ensures forall k :: k in Built(args, load) <==> k in Parsed(args) && k != "oFile" && k != "cFile" && k != "oDir"
    ensures forall k :: k in Built(args, load) ==> Built(args, load)[k] == Parsed(args)[k]
    ensures Interactive.Definition() in Built(args, load)
  {
    var p := Parsed(args);
    var required := RequiredDefinitions();
    assert Built(args, load) == map k | k in p && k !in required :: p[k];
    RequiredDefinitionsAre();
    var interactive := Interactive.Definition();
    assert interactive == "interactive";
    assert |interactive| == 11 && interactive !in required;
    assert interactive in p;
  }

  /** A table list argument: absent or blank gives None, otherwise the trimmed, lower-cased pieces between commas. */
  function TableList(value: Option<string>): Option<seq<string>> {
    if value.None? || IsBlank(value.value) then None
    else Some(Seqs.Map(Normalize, Split(value.value, ',')))
  }

  function Normalize(entry: string): string {
    ToLower(Trim(entry))
  }

  /** What Normalize produces: no outer characters up to U+0020 and no upper-case ASCII letter. */
  predicate Normalized(s: string) {
    (s == [] || (s[0] > ' ' && s[|s| - 1] > ' ')) && forall i :: 0 <= i < |s| ==> !('A' <= s[i] <= 'Z')
  }

  lemma NormalizeNormalized(entry: string)
    ensures Normalized(Normalize(entry))
  {
    var t := Trim(entry);
    var r := ToLower(t);
    assert |r| == |t|;
    forall i | 0 <= i < |r| ensures r[i] == LowerChar(t[i]) && !('A' <= r[i] <= 'Z') {
      LowerCharFacts(t[i]);
    }
    if r != [] {
      LowerCharFacts(t[0]);
      LowerCharFacts(t[|t| - 1]);
    }
  }

  lemma {:induction false} NormalizeFixes(s: string)
    requires Normalized(s)
    ensures Normalize(s) == s
  {
    assert TrimStart(s) == s;
    assert TrimEnd(s) == s;
    assert ToLower(s) == s;
  }

  /** A present, non-blank list gives one normalized entry per piece of the comma split, in order. */
  lemma TableListEntries(value: Option<string>)
    requires value.Some? && !IsBlank(value.value)
    ensures TableList(value).Some?
    ensures |TableList(value).value| == |Split(value.value, ',')|
    ensures forall i :: 0 <= i < |TableList(value).value| ==>
      TableList(value).value[i] == Normalize(Split(value.value, ',')[i]) && Normalized(TableList(value).value[i])
  {
    var pieces := Split(value.value, ',');
    forall i | 0 <= i < |pieces|
      ensures TableList(value).value[i] == Normalize(pieces[i]) && Normalized(TableList(value).value[i])
    {
      Seqs.MapIndex(Normalize, pieces, i);
      NormalizeNormalized(pieces[i]);
    }
  }

  /** Splitting comma-joined, comma-free names whose last one is not empty gives the names. */
  lemma SplitOfJoin(names: seq<string>)
    requires names != [] && names[|names| - 1] != []
    requires forall i :: 0 <= i < |names| ==> ',' !in names[i]
    ensures Split(Join(names, ","), ',') == names
  {
    var s := Join(names, ",");
    assert "," == [','];
    SplitAllJoin(names, ',');
    if |names| == 1 {
      assert s == names[0];
    } else {
      JoinHasComma(names);
      assert RemoveTrailingEmpty(names) == names;
    }
  }

  /** Two or more names joined with commas contain a comma. */
  lemma JoinHasComma(names: seq<string>)
    requires |names| > 1
    ensures ',' in Join(names, ",")
  {
    var n := |names| - 1;
    var init := Join(names[..n], ",");
    assert Join(names, ",") == init + "," + names[n];
    assert Join(names, ",")[|init|] == ',';
  }

  /** A comma-joined list is blank only when it is a single name made of whitespace. */
  lemma JoinNotBlank(names: seq<string>)
    requires names != [] && (|names| > 1 || !IsBlank(names[0]))
    ensures !IsBlank(Join(names, ","))
  {
    var s := Join(names, ",");
    if |names| > 1 {
      JoinCons(names[0], names[1..], ",");
      assert [names[0]] + names[1..] == names;
      assert s == names[0] + "," + Join(names[1..], ",");
      assert s[|names[0]|] == ',';
      assert !IsWhitespace(s[|names[0]|]);
    }
  }

  /**
   * Joining normalized, comma-free names with commas and reading the list back gives the names,
   * unless the list is one name made entirely of whitespace above U+0020, which reads as blank.
   */
  lemma TableListOfJoin(names: seq<string>)
    requires names != [] && (|names| > 1 || !IsBlank(names[0]))
    requires forall i :: 0 <= i < |names| ==> names[i] != [] && Normalized(names[i]) && ',' !in names[i]
    ensures TableList(Some(Join(names, ","))) == Some(names)
  {
    var s := Join(names, ",");
    JoinNotBlank(names);
    assert TableList(Some(s)) == Some(Seqs.Map(Normalize, Split(s, ',')));
    SplitOfJoin(names);
    NormalizeAll(names);
  }

  /** Normalizing names that are already normalized changes none of them. */
  lemma NormalizeAll(names: seq<string>)
    requires forall i :: 0 <= i < |names| ==> Normalized(names[i])
    ensures Seqs.Map(Normalize, names) == names
  {
    var m := Seqs.Map(Normalize, names);
    forall i | 0 <= i < |names|
      ensures m[i] == names[i]
    {
      Seqs.MapIndex(Normalize, names, i);
      NormalizeFixes(names[i]);
    }
  }

  /** The first answer that, trimmed, passes `valid`; None when no answer does. */
  function FirstValid(valid: string -> bool, answers: seq<string>): (r: Option<string>)
    ensures r.Some? ==> valid(r.value) && exists i :: 0 <= i < |answers| && r.value == Trim(answers[i])
    ensures r.None? <==> forall i :: 0 <= i < |answers| ==> !valid(Trim(answers[i]))
  {
    if answers == [] then None
    else
      var line := Trim(answers[0]);
      if valid(line) then Some(line)
      else
        var rest := answers[1..];
        var r := FirstValid(valid, rest);
        assert r.Some? ==> exists i :: 1 <= i < |answers| && r.value == Trim(answers[i]);
        r
  }

  /** The map marks an interactive run: the interactive flag is stored with a value. */
  predicate InteractiveIn(m: map<string, Option<string>>) {
    Interactive.Definition() in m && m[Interactive.Definition()].Some?
  }

  /** Whether collectArg prompts for `arg`: the run is interactive and the key is absent. */
  predicate Prompts(m: map<string, Option<string>>, arg: string) {
    arg !in m && InteractiveIn(m)
  }

  /**
   * What collectArg yields for `arg` on the map `m`: the stored value (None
   * when absent or stored without one) unless it prompts, and then the first
   * valid trimmed answer.
   */
  function Collected(m: map<string, Option<string>>, arg: string, valid: string -> bool, answers: seq<string>): Option<string> {
    if Prompts(m, arg) then FirstValid(valid, answers)
    else if arg in m then m[arg]
    else None
  }

  /** The map after collectArg: a prompted answer is stored under its key. */
  function AfterCollect(m: map<string, Option<string>>, arg: string, valid: string -> bool, answers: seq<string>): map<string, Option<string>> {
    if Prompts(m, arg) && FirstValid(valid, answers).Some? then m[arg := FirstValid(valid, answers)] else m
  }

  /** A prompted answer is stored, so collecting the same key again returns it without prompting. */
  lemma CollectOnce(m: map<string, Option<string>>, arg: string, valid: string -> bool, answers: seq<string>,
                    valid2: string -> bool, answers2: seq<string>)
    requires Collected(m, arg, valid, answers).Some?
    ensures !Prompts(AfterCollect(m, arg, valid, answers), arg)
    ensures Collected(AfterCollect(m, arg, valid, answers), arg, valid2, answers2) == Collected(m, arg, valid, answers)
  {
  }

  /** Prompting leaves every other key, and the interactive mode, as they were. */
  lemma CollectKeepsOthers(m: map<string, Option<string>>, arg: string, valid: string -> bool, answers: seq<string>, k: string)
    requires k != arg
    ensures k in AfterCollect(m, arg, valid, answers) <==> k in m
    ensures k in m ==> AfterCollect(m, arg, valid, answers)[k] == m[k]
    ensures InteractiveIn(AfterCollect(m, arg, valid, answers)) == InteractiveIn(m)
  {
  }

  /** fileExists / dirExists: a non-empty path the file system reports as a file (a directory). */
  function PathCheck(probe: string -> bool): string -> bool {
    path => path != [] && probe(path)
  }

  /** ArgumentBag: the argument map and the questions asked about it. */
  class ArgumentBag {
    var arguments: map<string, Option<string>>

    constructor(arguments: map<string, Option<string>>)
      ensures this.arguments == arguments
    {
      this.arguments := arguments;
    }

    /** Non-interactive collectArg: the stored value, None when absent or stored without a value. */
    function CollectArg(arg: string): (r: Option<string>)
      reads this
      ensures r.Some? ==> arg in arguments && arguments[arg] == r
      ensures arg in arguments ==> r == arguments[arg]
      ensures arg !in arguments ==> r.None?
    {
      if arg in arguments then arguments[arg] else None
    }

    /**
     * collectArg with a prompt: the stored value when the key is present or
     * the run is not interactive; otherwise the answers typed at the prompt
     * are read until one, trimmed, passes `valid`, and that one is stored.
     */
    method CollectPrompted(arg: string, valid: string -> bool, answers: seq<string>) returns (r: Option<string>)
      modifies this
      ensures r == Collected(old(arguments), arg, valid, answers)
      ensures arguments == AfterCollect(old(arguments), arg, valid, answers)
    {
      if arg in arguments || !IsInteractive() {
        r := CollectArg(arg);
        return;
      }
      var k := 0;
      while k < |answers|
        invariant k <= |answers| && arguments == old(arguments)
        invariant FirstValid(valid, answers) == FirstValid(valid, answers[k..])
      {
        var line := Trim(answers[k]);
        if valid(line) {
          arguments := arguments[arg := Some(line)];
          r := Some(line);
          return;
        }
        assert answers[k..][1..] == answers[k + 1..];
        k := k + 1;
      }
      r := None;
    }

    /** getOriginalFile: oFile, prompting for an existing file in an interactive run. */
    method GetOriginalFile(isFile: string -> bool, answers: seq<string>) returns (r: Option<string>)
      modifies this
      ensures r == Collected(old(arguments), OriginalFile.Definition(), PathCheck(isFile), answers)
      ensures arguments == AfterCollect(old(arguments), OriginalFile.Definition(), PathCheck(isFile), answers)
    {
      r := CollectPrompted(OriginalFile.Definition(), PathCheck(isFile), answers);
    }

    /** getChangedFile: cFile, prompting for an existing file in an interactive run. */
    method GetChangedFile(isFile: string -> bool, answers: seq<string>) returns (r: Option<string>)
      modifies this
      ensures r == Collected(old(arguments), ChangedFile.Definition(), PathCheck(isFile), answers)
      ensures arguments == AfterCollect(old(arguments), ChangedFile.Definition(), PathCheck(isFile), answers)
    {
      r := CollectPrompted(ChangedFile.Definition(), PathCheck(isFile), answers);
    }

    /** getOutputDirectory: oDir, prompting for an existing directory in an interactive run. */
    method GetOutputDirectory(isDirectory: string -> bool, answers: seq<string>) returns (r: Option<string>)
      modifies this
      ensures r == Collected(old(arguments), OutputDir.Definition(), PathCheck(isDirectory), answers)
      ensures arguments == AfterCollect(old(arguments), OutputDir.Definition(), PathCheck(isDirectory), answers)
    {
      r := CollectPrompted(OutputDir.Definition(), PathCheck(isDirectory), answers);
    }

    /** isInteractive: the interactive key is present with a value. */
    function IsInteractive(): (r: bool)
      reads this
      ensures r <==> "interactive" in arguments && arguments["interactive"].Some?
    {
      assert Interactive.Definition() == "interactive";
      CollectArg(Interactive.Definition()).Some?
    }

    /** isLazyMode: the lazy key is present with a value. */
    function IsLazyMode(): (r: bool)
      reads this
      ensures r <==> "lazy" in arguments && arguments["lazy"].Some?
    {
      assert Lazy.Definition() == "lazy";
      CollectArg(Lazy.Definition()).Some?
    }

    function Size(): nat
      reads this
    {
      |arguments|
    }

    /** claimsMet: an interactive run, or one naming oFile, cFile and oDir. */
    function ClaimsMet(): (r: bool)
      reads this
      ensures r <==> IsInteractive() || ("oFile" in arguments && "cFile" in arguments && "oDir" in arguments)
    {
      RequiredPresent(arguments);
      IsInteractive() || forall a :: a in RequiredList() ==> a.Definition() in arguments
    }

    /**
     * getIncludeTables: none when inTables is absent, valueless or blank;
     * otherwise its comma-separated pieces, trimmed and lower-cased.
     */
    function GetIncludeTables(): (r: Option<seq<string>>)
      reads this
      ensures r.Some? <==> "inTables" in arguments && arguments["inTables"].Some? && !IsBlank(arguments["inTables"].value)
      ensures r.Some? ==> TableListed(arguments["inTables"].value, r.value)
    {
      assert IncludeTables.Definition() == "inTables";
      TableListOf(CollectArg(IncludeTables.Definition()))
    }

    /**
     * getExcludeTables: none when exTables is absent, valueless or blank;
     * otherwise its comma-separated pieces, trimmed and lower-cased.
     */
    function GetExcludeTables(): (r: Option<seq<string>>)
      reads this
      ensures r.Some? <==> "exTables" in arguments && arguments["exTables"].Some? && !IsBlank(arguments["exTables"].value)
      ensures r.Some? ==> TableListed(arguments["exTables"].value, r.value)
    {
      assert ExcludeTables.Definition() == "exTables";
      TableListOf(CollectArg(ExcludeTables.Definition()))
    }
  }

  /** The names a table list holds: one per comma-separated piece, each trimmed and lower-cased. */
  predicate TableListed(value: string, names: seq<string>) {
    |names| == |Split(value, ',')| &&
    forall i :: 0 <= i < |names| ==> names[i] == Normalize(Split(value, ',')[i]) && Normalized(names[i])
  }

  /** TableList, with what it yields stated. */
  function TableListOf(value: Option<string>): (r: Option<seq<string>>)
    ensures r == TableList(value)
    ensures r.Some? <==> value.Some? && !IsBlank(value.value)
    ensures r.Some? ==> TableListed(value.value, r.value)
  {
    if value.Some? && !IsBlank(value.value) then
      TableListEntries(value);
      TableList(value)
    else
      TableList(value)
  }

  /** The required arguments are all present iff oFile, cFile and oDir are keys of the map. */
  lemma RequiredPresent(m: map<string, Option<string>>)
    ensures (forall a :: a in RequiredList() ==> a.Definition() in m) <==>
      ("oFile" in m && "cFile" in m && "oDir" in m)
  {
    RequiredListIs();
    var required := RequiredList();
    assert required[0] == OriginalFile && required[1] == ChangedFile && required[2] == OutputDir;
    assert OriginalFile.Definition() == "oFile" && ChangedFile.Definition() == "cFile" && OutputDir.Definition() == "oDir";
    if "oFile" in m && "cFile" in m && "oDir" in m {
      forall a | a in required
        ensures a.Definition() in m
      {
        assert a == OriginalFile || a == ChangedFile || a == OutputDir;
      }
    }
  }

  /** On a bag that build produced, the flags hold iff their key is present. */
  lemma BuiltFlags(args: seq<string>, load: Option<string> -> seq<string>, bag: ArgumentBag)
    requires bag.arguments == Built(args, load)
    ensures bag.IsInteractive() <==> "interactive" in bag.arguments
    ensures bag.IsLazyMode() <==> "lazy" in bag.arguments
  {
    var parsed := Parsed(args);
    var source := if PropertyFile.Definition() in parsed then load(parsed[PropertyFile.Definition()]) else args;
    assert Interactive.Definition() == "interactive" && Lazy.Definition() == "lazy";
    if "interactive" in bag.arguments {
      assert "interactive" in Parsed(source);
      ParsedKnown(source, "interactive");
      LookupMeans("interactive", Interactive);
    }
    if "lazy" in bag.arguments {
      assert "lazy" in Parsed(source);
      ParsedKnown(source, "lazy");
      LookupMeans("lazy", Lazy);
    }
  }

  /** On a bag that build produced, claimsMet holds iff interactive is present or oFile, cFile and oDir all are. */
  lemma BuiltClaims(args: seq<string>, load: Option<string> -> seq<string>, bag: ArgumentBag)
    requires bag.arguments == Built(args, load)
    ensures bag.ClaimsMet() <==>
      "interactive" in bag.arguments || ("oFile" in bag.arguments && "cFile" in bag.arguments && "oDir" in bag.arguments)
  {
    BuiltFlags(args, load, bag);
  }
}
