/** The parser of command line options: splitting into tokens, and the loop over the tokens. */
module Options {
  import opened Collections

  datatype OptionType = Unknown | No | Required | Optional

  type Declared = map<string, OptionType>

  type Arguments = map<string, string>

  datatype Error =
    | NoSuchOption(name: string)
    | TakesNoArgument(name: string)
    | RequiresArgument(name: string)
    | InvalidArgument(text: string)
    | Missing

  datatype Failure = None | Thrown(error: Error)

  /** What was assigned before a parse ended, and whether it ended with an exception. */
  datatype Parsed = Parsed(args: Arguments, failure: Failure)

  // ---------------------------------------------------------------- tokens

  /** Position of the first `c`; the length when there is none. */
  function IndexOf(s: string, c: char): (p: nat)
    ensures p <= |s|
    ensures p < |s| ==> s[p] == c
    ensures forall i :: 0 <= i < p ==> s[i] != c
  {
    if s == [] || s[0] == c then 0 else 1 + IndexOf(s[1..], c)
  }

  /** The stretches between the spaces, empty ones included. */
  function Fields(s: string): (fields: seq<string>)
    ensures fields != []
    decreases |s|
  {
    var p := IndexOf(s, ' ');
    if p == |s| then [s] else [s[..p]] + Fields(s[p + 1..])
  }

  function Join(fields: seq<string>): string
    requires fields != []
  {
    if |fields| == 1 then fields[0] else fields[0] + " " + Join(fields[1..])
  }

  function NonEmpty(fields: seq<string>): seq<string> {
    if fields == [] then []
    else (if fields[0] == "" then [] else [fields[0]]) + NonEmpty(fields[1..])
  }

  /** Empty stretches are dropped, but the last one is always kept. */
  function Split(s: string): seq<string> {
    var fields := Fields(s);
    NonEmpty(fields[..|fields| - 1]) + [fields[|fields| - 1]]
  }

  predicate NoSpace(s: string) {
    forall i :: 0 <= i < |s| ==> s[i] != ' '
  }

  lemma IndexOfNone(s: string, c: char)
    requires forall i :: 0 <= i < |s| ==> s[i] != c
    ensures IndexOf(s, c) == |s|
  {
  }

  lemma IndexOfFirst(s: string, c: char, rest: string)
    requires forall i :: 0 <= i < |s| ==> s[i] != c
    ensures IndexOf(s + [c] + rest, c) == |s|
  {
    var t := s + [c] + rest;
    assert t[|s|] == c;
    assert forall i :: 0 <= i < |s| ==> t[i] == s[i];
  }

  lemma FieldsFirst(f: string, rest: string)
    requires NoSpace(f)
    ensures Fields(f + [' '] + rest) == [f] + Fields(rest)
  {
    IndexOfFirst(f, ' ', rest);
    var t := f + [' '] + rest;
    assert t[..|f|] == f;
    assert t[|f| + 1..] == rest;
  }

  lemma FieldsNone(f: string)
    requires NoSpace(f)
    ensures Fields(f) == [f]
  {
    IndexOfNone(f, ' ');
  }

  /** Splitting into fields undoes joining them with spaces. */
  lemma {:induction false} FieldsOfJoin(fields: seq<string>)
    requires fields != [] && forall i :: 0 <= i < |fields| ==> NoSpace(fields[i])
    ensures Fields(Join(fields)) == fields
  {
    if |fields| == 1 {
      FieldsNone(fields[0]);
    } else {
      hide Fields, NoSpace;
      FieldsOfJoin(fields[1..]);
      FieldsFirst(fields[0], Join(fields[1..]));
    }
  }

  /** Joining the fields of a string gives the string, so nothing is dropped but empty stretches. */
  lemma {:induction false} JoinOfFields(s: string)
    ensures Join(Fields(s)) == s
    decreases |s|
  {
    var p := IndexOf(s, ' ');
    if p < |s| {
      hide IndexOf;
      var rest := s[p + 1..];
      assert s == s[..p] + " " + rest;
      TailAfter(s[..p], Fields(rest));
      JoinOfFields(rest);
    }
  }

  lemma {:induction false} NonEmptyAppend(a: seq<string>, f: string)
    ensures NonEmpty(a + [f]) == NonEmpty(a) + if f == "" then [] else [f]
  {
    if a == [] {
      assert a + [f] == [f];
    } else {
      NonEmptyAppend(a[1..], f);
      assert (a + [f])[1..] == a[1..] + [f];
    }
  }

  lemma NonEmptyOfNothing()
    ensures NonEmpty([]) == []
  {
  }

  lemma {:induction false} NonEmptyKeeps(fields: seq<string>, w: string)
    ensures multiset(NonEmpty(fields))[w] == if w == "" then 0 else multiset(fields)[w]
  {
    if fields != [] {
      NonEmptyKeeps(fields[1..], w);
      assert fields == [fields[0]] + fields[1..];
    }
  }

  /** Splitting keeps every stretch that is not empty as often as it is there, and an empty one only as the last. */
  lemma SplitKeeps(s: string, w: string)
    ensures var fields := Fields(s);
      && multiset(Split(s))[w] ==
           (if w != "" then multiset(fields)[w] else if fields[|fields| - 1] == "" then 1 else 0)
      && Split(s)[|Split(s)| - 1] == fields[|fields| - 1]
  {
    var fields := Fields(s);
    NonEmptyKeeps(fields[..|fields| - 1], w);
    FrontAndLast(fields);
    hide Fields, NonEmpty;
  }

  lemma NonEmptyStep(done: seq<string>, f: string, tokens: seq<string>)
    requires tokens == NonEmpty(done)
    ensures NonEmpty(done + [f]) == if |f| > 0 then tokens + [f] else tokens
  {
    NonEmptyAppend(done, f);
  }

  /** `start` is the position behind the last space. */
  method SplitCommand(s: string) returns (tokens: seq<string>)
    ensures tokens == Split(s)
  {
    hide Fields, NonEmpty;
    tokens := [];
    var start, i := 0, 0;
    ghost var done: seq<string> := [];
    assert s[0..] == s;
    NonEmptyOfNothing();
    while i < |s|
      invariant start <= i <= |s| && NoSpace(s[start..i])
      invariant tokens == NonEmpty(done) && done + Fields(s[start..]) == Fields(s)
    {
      if s[i] == ' ' {
        assert s[start..] == s[start..i] + [' '] + s[i + 1..];
        FieldsFirst(s[start..i], s[i + 1..]);
        NonEmptyStep(done, s[start..i], tokens);
        if i - start > 0 {
          tokens := tokens + [s[start..i]];
        }
        done := done + [s[start..i]];
        start := i + 1;
      } else {
        assert s[start..i + 1] == s[start..i] + [s[i]];
      }
      i := i + 1;
    }
    assert s[start..i] == s[start..];
    FieldsNone(s[start..]);
    assert Fields(s) == done + [s[start..]];
    assert Fields(s)[..|Fields(s)| - 1] == done;
    tokens := tokens + [s[start..]];
  }

  // ---------------------------------------------------------------- one token

  function TypeOf(declared: Declared, name: string): OptionType {
    if name in declared then declared[name] else Unknown
  }

  /** Neither an option nor nothing at all: it can be the value of the option before it. */
  datatype Next = End | Token(text: string)

  predicate IsOption(token: string) {
    token != "" && token[0] == '-'
  }

  predicate CanBeValue(next: Next) {
    next.Token? && !IsOption(next.text)
  }

  /** Every character that is declared to take no argument is set; the others are passed over. */
  function SetFlags(declared: Declared, args: Arguments, flags: string): Arguments
    decreases |flags|
  {
    if flags == "" then args
    else
      var set1 := if TypeOf(declared, flags[..1]) == No then args[flags[..1] := ""] else args;
      SetFlags(declared, set1, flags[1..])
  }

  /** An option that may take the next token as its value. */
  function TakeNext(args: Arguments, name: string, required: bool, next: Next): Parsed {
    if CanBeValue(next) then Parsed(args[name := next.text], None)
    else if required then Parsed(args, Thrown(RequiresArgument(name)))
    else Parsed(args[name := ""], None)
  }

  function LongOption(declared: Declared, args: Arguments, str: string, next: Next): Parsed {
    var pos := IndexOf(str, '=');
    if str == "" then Parsed(args, None)
    else if pos < |str| then
      var name := str[..pos];
      match TypeOf(declared, name)
      case Unknown => Parsed(args, Thrown(NoSuchOption(name)))
      case No => Parsed(args, Thrown(TakesNoArgument(name)))
      case _ => Parsed(args[name := str[pos + 1..]], None)
    else
      match TypeOf(declared, str)
      case Unknown => Parsed(args, None)
      case No => Parsed(args[str := ""], None)
      case Optional => TakeNext(args, str, false, next)
      case Required => TakeNext(args, str, true, next)
  }

  function ShortOption(declared: Declared, args: Arguments, str: string, next: Next): Parsed {
    if str == "" then Parsed(args, None)
    else if IndexOf(str, '=') < |str| then Parsed(args, Thrown(InvalidArgument(str)))
    else
      var name := str[..1];
      match TypeOf(declared, name)
      case Unknown => Parsed(args, None)
      case No => Parsed(SetFlags(declared, args, str), None)
      case kind =>
        if |str| > 1 then Parsed(args[name := str[1..]], None) else TakeNext(args, name, kind == Required, next)
  }

  /** What one token does, given the token after it. */
  function One(declared: Declared, args: Arguments, token: string, next: Next): Parsed {
    if !IsOption(token) then Parsed(args, None)
    else if |token| >= 2 && token[1] == '-' then LongOption(declared, args, token[2..], next)
    else ShortOption(declared, args, token[1..], next)
  }

  function NextOf(tokens: seq<string>, i: nat): Next {
    if i + 1 < |tokens| then Token(tokens[i + 1]) else End
  }

  /** All tokens one after the other, each with a look at the next one; nothing is skipped. */
  function Fold(declared: Declared, args: Arguments, tokens: seq<string>): Parsed
    decreases |tokens|
  {
    if tokens == [] then Parsed(args, None)
    else
      var first := One(declared, args, tokens[0], NextOf(tokens, 0));
      if first.failure != None then first else Fold(declared, first.args, tokens[1..])
  }

  predicate AllGiven(declared: Declared, args: Arguments) {
    forall name :: name in declared && declared[name] == Required ==> name in args
  }

  function Parse(declared: Declared, args: Arguments, tokens: seq<string>): Parsed {
    var r := Fold(declared, args, tokens);
    if r.failure == None && !AllGiven(declared, r.args) then r.(failure := Thrown(Missing)) else r
  }

  // ---------------------------------------------------------------- the parser

  class Option {
    var declared: Declared
    var args: Arguments

    constructor ()
      ensures declared == map[] && args == map[]
    {
      declared, args := map[], map[];
    }

    /** `ok` is false when the program throws. */
    method Add(name: string, kind: OptionType) returns (ok: bool)
      modifies this
      ensures ok == (kind != Unknown)
      ensures declared == (if ok then old(declared)[name := kind] else old(declared)) && args == old(args)
    {
      if kind == Unknown {
        return false;
      }
      declared := declared[name := kind];
      return true;
    }

    method Remove(name: string)
      modifies this
      ensures declared == old(declared) - {name} && args == old(args)
    {
      if name in declared {
        declared := declared - {name};
      }
    }

    method AssignFlags(str: string)
      modifies this`args
      ensures args == SetFlags(declared, old(args), str)
    {
      var i := 0;
      while i < |str|
        invariant i <= |str|
        invariant SetFlags(declared, args, str[i..]) == SetFlags(declared, old(args), str)
      {
        var output := [str[i]];
        assert str[i..][..1] == output && str[i..][1..] == str[i + 1..];
        if TypeOf(declared, output) == No {
          args := args[output := ""];
        }
        i := i + 1;
      }
    }

    /** The value of an option is the next token, which is then skipped. */
    method AssignNext(name: string, required: bool, tokens: seq<string>, i: nat) returns (skip: bool, failure: Failure)
      requires i < |tokens|
      modifies this`args
      ensures Parsed(args, failure) == TakeNext(old(args), name, required, NextOf(tokens, i))
      ensures skip ==> CanBeValue(NextOf(tokens, i))
    {
      if i + 1 != |tokens| && !IsOption(tokens[i + 1]) {
        args := args[name := tokens[i + 1]];
        return true, None;
      }
      if required {
        return false, Thrown(RequiresArgument(name));
      }
      args := args[name := ""];
      return false, None;
    }

    method ParseLong(str: string, tokens: seq<string>, i: nat) returns (skip: bool, failure: Failure)
      requires i < |tokens|
      modifies this`args
      ensures Parsed(args, failure) == LongOption(declared, old(args), str, NextOf(tokens, i))
      ensures skip ==> CanBeValue(NextOf(tokens, i))
    {
      skip, failure := false, None;
      if str == "" {
        return;
      }
      var pos := IndexOf(str, '=');
      if pos < |str| {
        var name, value := str[..pos], str[pos + 1..];
        match TypeOf(declared, name) {
          case Unknown => failure := Thrown(NoSuchOption(name));
          case No => failure := Thrown(TakesNoArgument(name));
          case Optional | Required => args := args[name := value];
        }
      } else {
        match TypeOf(declared, str) {
          case Unknown =>
          case No => args := args[str := ""];
          case Optional => skip, failure := AssignNext(str, false, tokens, i);
          case Required => skip, failure := AssignNext(str, true, tokens, i);
        }
      }
    }

    method ParseShort(str: string, tokens: seq<string>, i: nat) returns (skip: bool, failure: Failure)
      requires i < |tokens|
      modifies this`args
      ensures Parsed(args, failure) == ShortOption(declared, old(args), str, NextOf(tokens, i))
      ensures skip ==> CanBeValue(NextOf(tokens, i))
    {
      skip, failure := false, None;
      if str == "" {
        return;
      }
      if IndexOf(str, '=') < |str| {
        failure := Thrown(InvalidArgument(str));
        return;
      }
      var name := str[..1];
      var kind := TypeOf(declared, name);
      match kind {
        case Unknown =>
        case No => AssignFlags(str);
        case Optional | Required =>
          if |str| > 1 {
            args := args[name := str[1..]];
          } else {
            skip, failure := AssignNext(name, kind == Required, tokens, i);
          }
      }
    }

    /** The loop over the tokens: a token that was taken as a value is skipped. */
    method ParseTokens(tokens: seq<string>) returns (failure: Failure)
      modifies this`args
      ensures Parsed(args, failure) == Parse(declared, old(args), tokens)
    {
      failure := None;
      var i := 0;
      assert tokens[0..] == tokens;
      while i < |tokens|
        invariant i <= |tokens| && failure == None
        invariant Fold(declared, args, tokens[i..]) == Fold(declared, old(args), tokens)
      {
        var arg := tokens[i];
        FoldStep(declared, args, tokens, i);
        ghost var before := args;
        var skip := false;
        if IsOption(arg) {
          if |arg| >= 2 && arg[1] == '-' {
            skip, failure := ParseLong(arg[2..], tokens, i);
          } else {
            skip, failure := ParseShort(arg[1..], tokens, i);
          }
        }
        if failure != None {
          return;
        }
        i := i + 1;
        if skip {
          FoldStep(declared, args, tokens, i);
          i := i + 1;
        }
      }
      assert tokens[i..] == [];
      var ok := RequiredGiven();
      if !ok {
        return Thrown(Missing);
      }
    }

    method RequiredGiven() returns (ok: bool)
      ensures ok == AllGiven(declared, args)
    {
      var todo := declared.Keys;
      while todo != {}
        invariant todo <= declared.Keys
        invariant forall name :: name in declared && name !in todo && declared[name] == Required ==> name in args
        decreases |todo|
      {
        var name := Pick(todo);
        todo := todo - {name};
        if declared[name] == Required && name !in args {
          return false;
        }
      }
      return true;
    }

    method ParseCommand(command: string) returns (failure: Failure)
      modifies this`args
      ensures Parsed(args, failure) == Parse(declared, old(args), Split(command))
    {
      var tokens := SplitCommand(command);
      failure := ParseTokens(tokens);
    }
  }

  lemma FoldStep(declared: Declared, args: Arguments, tokens: seq<string>, i: nat)
    requires i < |tokens|
    ensures Fold(declared, args, tokens[i..]) ==
            var first := One(declared, args, tokens[i], NextOf(tokens, i));
            if first.failure != None then first else Fold(declared, first.args, tokens[i + 1..])
  {
    assert tokens[i..][1..] == tokens[i + 1..];
    assert NextOf(tokens[i..], 0) == NextOf(tokens, i);
  }

  // ---------------------------------------------------------------- what each token does

  /** One character that can name an option in its short and in its long form. */
  predicate IsFlag(c: char) {
    c != '-' && c != '='
  }

  predicate NoEquals(s: string) {
    forall i :: 0 <= i < |s| ==> s[i] != '='
  }

  /** The next token can be a value: it does not begin like an option. */
  predicate OffersValue(next: Next) {
    next.Token? && (next.text == "" || next.text[0] != '-')
  }

  /** An option by itself, long or short: unknown ones are passed over, and the next token may be the value. */
  function Alone(declared: Declared, args: Arguments, name: string, next: Next): Parsed {
    match TypeOf(declared, name)
    case Unknown => Parsed(args, None)
    case No => Parsed(args[name := ""], None)
    case Optional => Parsed(args[name := if OffersValue(next) then next.text else ""], None)
    case Required =>
      if OffersValue(next) then Parsed(args[name := next.text], None) else Parsed(args, Thrown(RequiresArgument(name)))
  }

  lemma LongWithValue(declared: Declared, args: Arguments, name: string, value: string, next: Next)
    requires NoEquals(name)
    ensures One(declared, args, "--" + name + "=" + value, next) ==
            match TypeOf(declared, name)
            case Unknown => Parsed(args, Thrown(NoSuchOption(name)))
            case No => Parsed(args, Thrown(TakesNoArgument(name)))
            case _ => Parsed(args[name := value], None)
  {
    var token, str := "--" + name + "=" + value, name + ['='] + value;
    assert token[2..] == str && token[0] == '-' && token[1] == '-';
    IndexOfFirst(name, '=', value);
    assert str[..|name|] == name && str[|name| + 1..] == value;
  }

  lemma LongAlone(declared: Declared, args: Arguments, name: string, next: Next)
    requires name != "" && NoEquals(name)
    ensures One(declared, args, "--" + name, next) == Alone(declared, args, name, next)
  {
    var token := "--" + name;
    assert token[2..] == name && token[0] == '-' && token[1] == '-';
    IndexOfNone(name, '=');
  }

  lemma ShortAlone(declared: Declared, args: Arguments, c: char, next: Next)
    requires IsFlag(c)
    ensures One(declared, args, "-" + [c], next) == Alone(declared, args, [c], next)
  {
    var token := "-" + [c];
    assert token[1..] == [c] && [c][..1] == [c] && [c][1..] == "";
    IndexOfNone([c], '=');
    FlagsExactly(declared, args, [c], [c]);
    if TypeOf(declared, [c]) == No { assert SetFlags(declared, args[[c] := ""], "") == args[[c] := ""]; }
  }

  lemma ShortWithMore(declared: Declared, args: Arguments, c: char, more: string, next: Next)
    requires IsFlag(c) && more != ""
    ensures One(declared, args, "-" + [c] + more, next) ==
            if !NoEquals(more) then Parsed(args, Thrown(InvalidArgument([c] + more)))
            else
              match TypeOf(declared, [c])
              case Unknown => Parsed(args, None)
              case No => Parsed(SetFlags(declared, args, [c] + more), None)
              case _ => Parsed(args[[c] := more], None)
  {
    var token, str := "-" + [c] + more, [c] + more;
    assert token[1..] == str && token[1] == c && str[..1] == [c] && str[1..] == more;
    assert NoEquals(more) ==> NoEquals(str) by { assert forall i :: 0 < i < |str| ==> str[i] == more[i - 1]; }
    if NoEquals(more) {
      IndexOfNone(str, '=');
    } else {
      var i :| 0 <= i < |more| && more[i] == '=';
      assert str[i + 1] == '=';
    }
  }

  lemma SilentTokens(declared: Declared, args: Arguments, token: string, next: Next)
    requires token == "--" || token == "-" || token == "" || token[0] != '-'
    ensures One(declared, args, token, next) == Parsed(args, None)
  {
  }

  predicate SetBy(declared: Declared, flags: string, name: string) {
    |name| == 1 && name[0] in flags && TypeOf(declared, name) == No
  }

  /** Of several flags in one token, just those declared without argument are set. */
  lemma {:induction false} FlagsExactly(declared: Declared, args: Arguments, flags: string, name: string)
    ensures var t := SetFlags(declared, args, flags);
      && (name in t <==> name in args || SetBy(declared, flags, name))
      && (name in t ==> t[name] == if SetBy(declared, flags, name) then "" else args[name])
    decreases |flags|
  {
    if flags != "" {
      var set1 := if TypeOf(declared, flags[..1]) == No then args[flags[..1] := ""] else args;
      FlagsExactly(declared, set1, flags[1..], name);
      assert flags == flags[..1] + flags[1..];
      assert |name| == 1 ==> (name == flags[..1] <==> name[0] == flags[0]);
    }
  }

  /** The arguments when token `i` comes to be parsed. */
  function ArgsBefore(declared: Declared, args: Arguments, tokens: seq<string>, i: nat): Arguments
    requires i <= |tokens|
  {
    if i == 0 then args
    else One(declared, ArgsBefore(declared, args, tokens, i - 1), tokens[i - 1], NextOf(tokens, i - 1)).args
  }

  function At(declared: Declared, args: Arguments, tokens: seq<string>, i: nat): Parsed
    requires i < |tokens|
  {
    One(declared, ArgsBefore(declared, args, tokens, i), tokens[i], NextOf(tokens, i))
  }

  lemma {:induction false} FoldFrom(declared: Declared, args: Arguments, tokens: seq<string>, i: nat)
    requires i <= |tokens| && forall k :: 0 <= k < i ==> At(declared, args, tokens, k).failure == None
    ensures Fold(declared, args, tokens) == Fold(declared, ArgsBefore(declared, args, tokens, i), tokens[i..])
  {
    hide One;
    if i > 0 {
      FoldFrom(declared, args, tokens, i - 1);
      FoldStep(declared, ArgsBefore(declared, args, tokens, i - 1), tokens, i - 1);
      assert At(declared, args, tokens, i - 1).failure == None;
    } else {
      assert tokens[0..] == tokens;
    }
  }

  /** The first token that fails ends the parse, with what was assigned before it. */
  lemma StopsAtFirst(declared: Declared, args: Arguments, tokens: seq<string>, i: nat)
    requires i < |tokens| && At(declared, args, tokens, i).failure != None
    requires forall k :: 0 <= k < i ==> At(declared, args, tokens, k).failure == None
    ensures Parse(declared, args, tokens) == At(declared, args, tokens, i)
  {
    FoldFrom(declared, args, tokens, i);
    FoldStep(declared, ArgsBefore(declared, args, tokens, i), tokens, i);
    hide One;
  }

  /** If none fails, the parse fails exactly if a required option has no value. */
  lemma FailsAtEnd(declared: Declared, args: Arguments, tokens: seq<string>)
    requires forall k :: 0 <= k < |tokens| ==> At(declared, args, tokens, k).failure == None
    ensures var r := Parse(declared, args, tokens);
      && r.args == ArgsBefore(declared, args, tokens, |tokens|)
      && (r.failure == None <==> forall name :: name in declared && declared[name] == Required ==> name in r.args)
      && (r.failure != None ==> r.failure == Thrown(Missing))
  {
    FoldFrom(declared, args, tokens, |tokens|);
    hide One;
  }

  // ---------------------------------------------------------------- what a successful parse guarantees

  /** Only declared options have values, and the empty one if they take no argument. */
  ghost predicate WellTyped(declared: Declared, args: Arguments) {
    forall name :: name in args ==> name in declared && (declared[name] == No ==> args[name] == "")
  }

  ghost predicate NoUnknown(declared: Declared) {
    forall name :: name in declared ==> declared[name] != Unknown
  }

  lemma {:induction false} FlagsWellTyped(declared: Declared, args: Arguments, flags: string)
    requires WellTyped(declared, args)
    ensures WellTyped(declared, SetFlags(declared, args, flags))
    decreases |flags|
  {
    if flags != "" {
      var set1 := if TypeOf(declared, flags[..1]) == No then args[flags[..1] := ""] else args;
      FlagsWellTyped(declared, set1, flags[1..]);
    }
  }

  lemma OneWellTyped(declared: Declared, args: Arguments, token: string, next: Next)
    requires NoUnknown(declared) && WellTyped(declared, args)
    ensures WellTyped(declared, One(declared, args, token, next).args)
  {
    if IsOption(token) && !(|token| >= 2 && token[1] == '-') {
      FlagsWellTyped(declared, args, token[1..]);
      hide SetFlags, IndexOf;
    }
  }

  lemma {:induction false} FoldWellTyped(declared: Declared, args: Arguments, tokens: seq<string>)
    requires NoUnknown(declared) && WellTyped(declared, args)
    ensures WellTyped(declared, Fold(declared, args, tokens).args)
    decreases |tokens|
  {
    if tokens != [] {
      var first := One(declared, args, tokens[0], NextOf(tokens, 0));
      OneWellTyped(declared, args, tokens[0], NextOf(tokens, 0));
      if first.failure == None { FoldWellTyped(declared, first.args, tokens[1..]); }
    }
  }

  /** Starting without arguments, a parse that does not throw leaves declared options only, and all required ones. */
  lemma ParseGuarantees(declared: Declared, tokens: seq<string>)
    requires NoUnknown(declared) && Parse(declared, map[], tokens).failure == None
    ensures WellTyped(declared, Parse(declared, map[], tokens).args)
    ensures AllGiven(declared, Parse(declared, map[], tokens).args)
  {
    FoldWellTyped(declared, map[], tokens);
  }

  // ---------------------------------------------------------------- printing and parsing

  datatype Setting = Setting(name: string, value: string)

  function Print(s: Setting): string {
    "--" + s.name + "=" + s.value
  }

  function PrintAll(settings: seq<Setting>): (tokens: seq<string>)
    ensures |tokens| == |settings|
    ensures forall i :: 0 <= i < |settings| ==> tokens[i] == Print(settings[i])
  {
    if settings == [] then [] else [Print(settings[0])] + PrintAll(settings[1..])
  }

  /** The command line for a list of settings. */
  function Command(settings: seq<Setting>): string {
    if settings == [] then "" else Join(PrintAll(settings))
  }

  /** The settings as a map; a later one of the same name wins. */
  function Assigned(args: Arguments, settings: seq<Setting>): Arguments
    decreases |settings|
  {
    if settings == [] then args
    else Assigned(args[settings[0].name := settings[0].value], settings[1..])
  }

  /** The name can be printed, and its option takes a value. */
  ghost predicate Printable(declared: Declared, s: Setting) {
    && NoSpace(s.name) && NoSpace(s.value) && s.name != "" && (forall i :: 0 <= i < |s.name| ==> s.name[i] != '=')
    && TypeOf(declared, s.name) in {Optional, Required}
  }

  lemma OnePrinted(declared: Declared, args: Arguments, s: Setting, next: Next)
    requires Printable(declared, s)
    ensures One(declared, args, Print(s), next) == Parsed(args[s.name := s.value], None)
    ensures NoSpace(Print(s)) && Print(s) != ""
  {
    var str := s.name + ['='] + s.value;
    assert Print(s)[2..] == str && Print(s)[0] == '-' && Print(s)[1] == '-';
    IndexOfFirst(s.name, '=', s.value);
    assert str[..|s.name|] == s.name && str[|s.name| + 1..] == s.value;
  }

  lemma {:induction false} FoldPrinted(declared: Declared, args: Arguments, settings: seq<Setting>)
    requires forall i :: 0 <= i < |settings| ==> Printable(declared, settings[i])
    ensures Fold(declared, args, PrintAll(settings)) == Parsed(Assigned(args, settings), None)
    decreases |settings|
  {
    if settings != [] {
      var tokens := PrintAll(settings);
      assert tokens[1..] == PrintAll(settings[1..]);
      OnePrinted(declared, args, settings[0], NextOf(tokens, 0));
      FoldPrinted(declared, args[settings[0].name := settings[0].value], settings[1..]);
    }
  }

  lemma {:induction false} NonEmptyAll(fields: seq<string>)
    requires forall i :: 0 <= i < |fields| ==> fields[i] != ""
    ensures NonEmpty(fields) == fields
  {
    if fields != [] { NonEmptyAll(fields[1..]); }
  }

  /** Splitting recovers words without spaces that were joined by spaces. */
  lemma SplitOfJoin(words: seq<string>)
    requires words != [] && forall i :: 0 <= i < |words| ==> NoSpace(words[i]) && words[i] != ""
    ensures Split(Join(words)) == words
  {
    hide Fields, Join, NonEmpty, NoSpace;
    var front, last := words[..|words| - 1], words[|words| - 1];
    FieldsOfJoin(words);
    NonEmptyAll(front);
    FrontAndLast(words);
  }

  lemma NothingParsed(declared: Declared)
    ensures Fold(declared, map[], Split("")) == Parsed(map[], None)
  {
    FieldsNone("");
    assert Split("") == [""];
    assert Fold(declared, map[], [""]) == Parsed(map[], None);
  }

  /** Printing settings, splitting the line and parsing the tokens gives the settings back. */
  lemma RoundTrip(declared: Declared, settings: seq<Setting>)
    requires forall i :: 0 <= i < |settings| ==> Printable(declared, settings[i])
    ensures var r := Parse(declared, map[], Split(Command(settings)));
      && r.args == Assigned(map[], settings)
      && (r.failure == None <==> AllGiven(declared, Assigned(map[], settings)))
  {
    NothingParsed(declared);
    hide Fold, Split, Join, Print, Printable;
    if settings != [] {
      var words := PrintAll(settings);
      forall i | 0 <= i < |words| ensures NoSpace(words[i]) && words[i] != "" {
        OnePrinted(declared, map[], settings[i], End);
      }
      SplitOfJoin(words);
      FoldPrinted(declared, map[], settings);
    }
  }

  /** Distinct names make the map of the settings just what was printed. */
  lemma {:induction false} AssignedExactly(args: Arguments, settings: seq<Setting>, k: nat)
    requires forall i, j :: 0 <= i < j < |settings| ==> settings[i].name != settings[j].name
    requires k < |settings|
    ensures settings[k].name in Assigned(args, settings)
    ensures Assigned(args, settings)[settings[k].name] == settings[k].value
    decreases |settings|
  {
    if k > 0 {
      AssignedExactly(args[settings[0].name := settings[0].value], settings[1..], k - 1);
    } else {
      AssignedOthers(args[settings[0].name := settings[0].value], settings[1..], settings[0].name);
    }
  }

  lemma {:induction false} AssignedOthers(args: Arguments, settings: seq<Setting>, name: string)
    requires forall i :: 0 <= i < |settings| ==> settings[i].name != name
    ensures name in Assigned(args, settings) <==> name in args
    ensures name in args ==> Assigned(args, settings)[name] == args[name]
    decreases |settings|
  {
    if settings != [] {
      AssignedOthers(args[settings[0].name := settings[0].value], settings[1..], name);
    }
  }

  // ---------------------------------------------------------------- spellings

  lemma FoldOne(declared: Declared, args: Arguments, token: string)
    ensures Fold(declared, args, [token]) == One(declared, args, token, End)
  {
    assert [token][1..] == [];
  }

  /** A token that is no option does nothing, so it does not matter that the loop skips it. */
  lemma FoldTwo(declared: Declared, args: Arguments, token: string, value: string)
    requires !IsOption(value)
    ensures Fold(declared, args, [token, value]) == One(declared, args, token, Token(value))
  {
    assert [token, value][1..] == [value];
    var first := One(declared, args, token, Token(value));
    FoldOne(declared, first.args, value);
  }

  /**
    The ways to give an option its value are the same wherever they can be used: in a token of its own only what does
    not look like an option, and in one token with the short name only what is not empty and has no equals sign.
  */
  lemma SpellingsAgree(declared: Declared, args: Arguments, c: char, value: string)
    requires IsFlag(c) && TypeOf(declared, [c]) in {Optional, Required}
    ensures var given := Parsed(args[[c] := value], None);
      && Fold(declared, args, ["--" + [c] + "=" + value]) == given
      && (!IsOption(value) ==>
            Fold(declared, args, ["--" + [c], value]) == given && Fold(declared, args, ["-" + [c], value]) == given)
      && (value != "" ==>
            Fold(declared, args, ["-" + [c] + value]) ==
            if IndexOf(value, '=') == |value| then given else Parsed(args, Thrown(InvalidArgument([c] + value))))
  {
    var long := "--" + [c] + "=" + value;
    FoldOne(declared, args, long);
    IndexOfFirst([c], '=', value);
    assert long[2..] == [c] + ['='] + value;
    assert ([c] + ['='] + value)[..1] == [c] && ([c] + ['='] + value)[2..] == value;
    if !IsOption(value) { InTwoTokens(declared, args, c, value); }
    if value != "" { InOneToken(declared, args, c, value); }
  }

  lemma InTwoTokens(declared: Declared, args: Arguments, c: char, value: string)
    requires IsFlag(c) && TypeOf(declared, [c]) in {Optional, Required} && !IsOption(value)
    ensures Fold(declared, args, ["--" + [c], value]) == Parsed(args[[c] := value], None)
    ensures Fold(declared, args, ["-" + [c], value]) == Parsed(args[[c] := value], None)
  {
    FoldTwo(declared, args, "--" + [c], value);
    IndexOfNone([c], '=');
    assert ("--" + [c])[2..] == [c];
    FoldTwo(declared, args, "-" + [c], value);
    assert ("-" + [c])[1..] == [c] && [c][..1] == [c];
  }

  lemma InOneToken(declared: Declared, args: Arguments, c: char, value: string)
    requires IsFlag(c) && TypeOf(declared, [c]) in {Optional, Required} && value != ""
    ensures Fold(declared, args, ["-" + [c] + value]) ==
            if IndexOf(value, '=') == |value| then Parsed(args[[c] := value], None)
            else Parsed(args, Thrown(InvalidArgument([c] + value)))
  {
    var str := [c] + value;
    FoldOne(declared, args, "-" + [c] + value);
    assert ("-" + [c] + value)[1..] == str && str[..1] == [c] && str[1..] == value;
    assert IndexOf(str, '=') == 1 + IndexOf(value, '=');
  }

  /** The tokens of flags given one by one. */
  function OneByOne(flags: string): (tokens: seq<string>)
    ensures |tokens| == |flags|
  {
    if flags == "" then [] else ["-" + flags[..1]] + OneByOne(flags[1..])
  }

  lemma OneFlag(declared: Declared, args: Arguments, c: char, next: Next)
    requires IsFlag(c) && TypeOf(declared, [c]) == No
    ensures One(declared, args, "-" + [c], next) == Parsed(args[[c] := ""], None)
  {
    var token := "-" + [c];
    assert token[1..] == [c] && [c][..1] == [c] && [c][1..] == "";
    IndexOfNone([c], '=');
    assert SetFlags(declared, args[[c] := ""], "") == args[[c] := ""];
  }

  lemma {:induction false} FoldFlags(declared: Declared, args: Arguments, flags: string)
    requires forall i :: 0 <= i < |flags| ==> IsFlag(flags[i]) && TypeOf(declared, [flags[i]]) == No
    ensures Fold(declared, args, OneByOne(flags)) == Parsed(SetFlags(declared, args, flags), None)
    decreases |flags|
  {
    if flags != "" {
      var tokens, flag := OneByOne(flags), flags[..1];
      assert flag == [flags[0]];
      TailAfter("-" + flag, OneByOne(flags[1..]));
      OneFlag(declared, args, flags[0], NextOf(tokens, 0));
      FoldFlags(declared, args[flag := ""], flags[1..]);
    }
  }

  /** Flags that are given together are the flags given one by one. */
  lemma FlagsTogether(declared: Declared, args: Arguments, flags: string)
    requires flags != "" && forall i :: 0 <= i < |flags| ==> IsFlag(flags[i]) && TypeOf(declared, [flags[i]]) == No
    ensures Fold(declared, args, ["-" + flags]) == Fold(declared, args, OneByOne(flags))
  {
    var token := "-" + flags;
    FoldOne(declared, args, token);
    FoldFlags(declared, args, flags);
    IndexOfNone(flags, '=');
    assert token[1..] == flags && flags[..1] == [flags[0]];
  }

  // ---------------------------------------------------------------- the empty last token

  /** A required option at the end of the line throws, but with a space behind it its value is the empty string. */
  lemma TrailingSpace(name: string)
    requires name != "" && NoSpace(name) && forall i :: 0 <= i < |name| ==> name[i] != '='
    ensures var declared := map[name := Required];
      && Parse(declared, map[], Split("--" + name)) == Parsed(map[], Thrown(RequiresArgument(name)))
      && Parse(declared, map[], Split("--" + name + " ")) == Parsed(map[name := ""], None)
  {
    var declared, token := map[name := Required], "--" + name;
    assert NoSpace(token) && token[2..] == name;
    IndexOfNone(name, '=');
    FieldsNone(token);
    assert Split(token) == [token];
    assert One(declared, map[], token, End) == Parsed(map[], Thrown(RequiresArgument(name)));
    FieldsFirst(token, "");
    FieldsNone("");
    assert "--" + name + " " == token + [' '] + "";
    assert Fields("--" + name + " ") == [token, ""];
    NonEmptyAll([token]);
    assert Split("--" + name + " ") == [token, ""];
    assert [token, ""][1..] == [""];
    assert One(declared, map[], token, Token("")) == Parsed(map[name := ""], None);
    assert Fold(declared, map[name := ""], [""]) == Parsed(map[name := ""], None);
  }
}
