/**
 The command-line option parser of src/crelude/argparse.c. Options are
 registered with a short form (`-x`), a long form (`--name`) or both, and
 the parser then consumes the strings of `argv` one at a time, recording
 what each option was given in a map from option id to `Arg`. A value
 for an option may be glued on (`-n13`, `--number=13`) or be the next
 string, in which case the parser is left awaiting it.

 The parser's maps (`mapof(...)`, `LOOKUP`, `ASSOCIATE`) are Dafny maps,
 its template array is a sequence, and `ArgID`s are 16-bit: the template
 index is truncated to 16 bits both when `argreg` returns it and when
 `argparse` records under it.
 */
module ArgParsing {
  import opened Common

  /** `ARGP_MAGIC_INIT_CONST`, the bytes `"argp"`. */
  const ARGP_MAGIC_INIT_CONST: u32 := 0x6172_6770

  const ID_MODULUS: int := 0x1_0000

  /** `ArgID`: a `u16`. */
  type ArgId = x: int | 0 <= x < 0x1_0000

  /** `Arg`: the value recorded for an option (empty for a toggle) and
      whether it is on. */
  datatype Arg = Arg(value: string, isOn: bool)

  /** `mapof(ArgID, Arg)`: what the options were given. */
  type Args = map<ArgId, Arg>

  /** `ArgTemplate`; an absent form is stored as the empty string. */
  datatype Template = Template(
    id: ArgId,
    shortForm: string,
    longForm: string,
    takesValue: bool,
    help: string)

  /** `ArgParser`, without its error message. The two indexes map a short
      form's character and a long form's name to a template index. */
  datatype ArgParser = ArgParser(
    magic: u32,
    templates: seq<Template>,
    shortIndex: map<char, nat>,
    longIndex: map<string, nat>,
    awaiting: bool,
    awaitingId: ArgId,
    count: nat)

  /** The `ARGPARSE_*` results. */
  datatype Status = Ok | Invalid | Unexpected | ExpectedArgument | Unknown

  /** The `ierr` each result is returned as. */
  function Code(s: Status): (c: int)
    ensures 0 <= c <= 4
    ensures c == 0 <==> s == Ok
  {
    match s
    case Ok => 0
    case Invalid => 1
    case Unexpected => 2
    case ExpectedArgument => 3
    case Unknown => 4
  }

  /** What one call leaves behind: the parser, the options map and the
      result. */
  datatype Step = Step(parser: ArgParser, args: Args, status: Status)

  /** Every index the parser can look up names a registered template. */
  predicate Valid(p: ArgParser)
  {
    (forall c | c in p.shortIndex :: p.shortIndex[c] < |p.templates|)
    && (forall n | n in p.longIndex :: p.longIndex[n] < |p.templates|)
  }

  /** The `ArgID` of the template at `index`: the index cut to 16 bits. */
  function IdOf(index: nat): (id: ArgId)
    ensures index < ID_MODULUS ==> id == index
  {
    index % ID_MODULUS
  }

  /** The characters of a C string stored in `s`: everything before the
      first `NUL`, or all of `s` when it has none. */
  function CString(s: string): (t: string)
    ensures t <= s && NulFree(t)
    ensures |t| < |s| ==> s[|t|] == NUL
  {
    if s == [] || s[0] == NUL then [] else [s[0]] + CString(s[1..])
  }

  /** `strchr(s, c)` for a `c` that is not `NUL`: the first index of `c`. */
  function IndexOf(s: string, c: char): (r: Option<nat>)
    ensures r.Some? ==> r.value < |s| && s[r.value] == c && c !in s[..r.value]
    ensures r.None? ==> c !in s
  {
    if s == [] then None
    else if s[0] == c then Some(0)
    else
      match IndexOf(s[1..], c)
      case None => None
      case Some(i) =>
        assert s[..i + 1] == [s[0]] + s[1..][..i];
        Some(i + 1)
  }

  /** `arginit(ctx)`. */
  function ArgInit(): (p: ArgParser)
    ensures Valid(p) && p.magic == ARGP_MAGIC_INIT_CONST
    ensures |p.templates| == 0 && |p.shortIndex| == 0 && |p.longIndex| == 0
    ensures !p.awaiting && p.count == 0
  {
    ArgParser(ARGP_MAGIC_INIT_CONST, [], map[], map[], false, 0, 0)
  }

  /** A form as the template stores it: `nil` becomes the empty string. */
  function FormOrEmpty(form: Option<string>): string
  {
    if form.Some? then form.value else []
  }

  /** The character a short form is indexed by: the first one after at
      most one leading `'-'` (the terminator, if nothing follows). */
  function ShortKey(shortForm: string): char
  {
    if At(shortForm, 0) == '-' then At(shortForm, 1) else At(shortForm, 0)
  }

  /** The name a long form is indexed by: the text after a leading `"--"`,
      or the whole text without one. */
  function LongKey(longForm: string): string
  {
    if At(longForm, 0) == '-' && At(longForm, 1) == '-' then longForm[2..] else longForm
  }

  /** What `argreg` returns with the parser it leaves. */
  datatype Registered = Registered(parser: ArgParser, id: ArgId)

  /** `argreg(ctx, short_form, long_form, takes_value, help)`: `None` is the
      panic on a parser that was never initialised. */
  function ArgReg(p: ArgParser, shortForm: Option<string>, longForm: Option<string>,
                  takesValue: bool, help: string): (r: Option<Registered>)
    ensures r.Some? <==> p.magic == ARGP_MAGIC_INIT_CONST
    ensures r.Some? ==>
      var q := r.value.parser;
      r.value.id == IdOf(|p.templates|)
      && q.templates == p.templates + [Template(r.value.id, FormOrEmpty(shortForm), FormOrEmpty(longForm), takesValue, help)]
      && q.magic == p.magic && q.awaiting == p.awaiting && q.awaitingId == p.awaitingId && q.count == p.count
      && (Valid(p) ==> Valid(q))
    ensures r.Some? && shortForm.Some? ==>
      var q := r.value.parser;
      ShortKey(shortForm.value) in q.shortIndex && q.shortIndex[ShortKey(shortForm.value)] == |p.templates|
      && forall c | c != ShortKey(shortForm.value) ::
           (c in q.shortIndex <==> c in p.shortIndex) && (c in p.shortIndex ==> q.shortIndex[c] == p.shortIndex[c])
    ensures r.Some? && shortForm.None? ==> r.value.parser.shortIndex == p.shortIndex
    ensures r.Some? && longForm.Some? ==>
      var q := r.value.parser;
      LongKey(longForm.value) in q.longIndex && q.longIndex[LongKey(longForm.value)] == |p.templates|
      && forall n | n != LongKey(longForm.value) ::
           (n in q.longIndex <==> n in p.longIndex) && (n in p.longIndex ==> q.longIndex[n] == p.longIndex[n])
    ensures r.Some? && longForm.None? ==> r.value.parser.longIndex == p.longIndex
  {
    if p.magic != ARGP_MAGIC_INIT_CONST then None
    else
      var index := |p.templates|;
      var id := IdOf(index);
      var template := Template(id, FormOrEmpty(shortForm), FormOrEmpty(longForm), takesValue, help);
      var shortIndex := if shortForm.Some? then p.shortIndex[ShortKey(shortForm.value) := index] else p.shortIndex;
      var longIndex := if longForm.Some? then p.longIndex[LongKey(longForm.value) := index] else p.longIndex;
      Some(Registered(p.(templates := p.templates + [template], shortIndex := shortIndex, longIndex := longIndex), id))
  }

  /** The `"--name[=value]"` branch of `argparse`, before the count. */
  function Long(p: ArgParser, args: Args, arg: string): (r: Step)
    requires Valid(p) && At(arg, 0) == '-' && At(arg, 1) == '-'
    ensures r.parser.templates == p.templates && r.parser.shortIndex == p.shortIndex
    ensures r.parser.longIndex == p.longIndex && r.parser.magic == p.magic && r.parser.count == p.count
    ensures r.status == Ok || r.status == Unknown
    ensures r.status != Ok ==> r.parser == p && r.args == args
  {
    var text := CString(arg);
    assert |text| >= 2 && text[0] == '-' && text[1] == '-' by {
      assert arg[0] != NUL && arg[1] != NUL;
    }
    var equalSign := IndexOf(text, '=');
    var name := if equalSign.Some? then arg[2..equalSign.value] else arg[2..];
    if name !in p.longIndex then Step(p, args, Unknown)
    else
      var index := p.longIndex[name];
      var id := IdOf(index);
      if p.templates[index].takesValue then
        if equalSign.Some? then Step(p, args[id := Arg(CString(arg[equalSign.value + 1..]), true)], Ok)
        else Step(p.(awaiting := true, awaitingId := id), args, Ok)
      else Step(p, args[id := Arg([], true)], Ok)
  }

  /** The `foreach (opt, arg)` loop of `argparse` over a cluster of short
      options `rest` from index `k`; `disabled` when it began with `'+'`. */
  function Cluster(p: ArgParser, args: Args, rest: string, disabled: bool, k: nat): (r: Step)
    requires Valid(p) && k <= |rest|
    ensures r.parser.templates == p.templates && r.parser.shortIndex == p.shortIndex
    ensures r.parser.longIndex == p.longIndex && r.parser.magic == p.magic && r.parser.count == p.count
    ensures r.status == Ok || r.status == Unknown || r.status == Invalid
    ensures r.status != Ok ==> r.parser == p
    decreases |rest| - k
  {
    if k == |rest| then Step(p, args, Ok)
    else
      var opt := rest[k];
      if opt !in p.shortIndex then Step(p, args, Unknown)
      else
        var index := p.shortIndex[opt];
        var id := IdOf(index);
        if p.templates[index].takesValue then
          if |rest| != 1 && k != 0 then Step(p, args, Invalid)
          else if |rest| != 1 then Step(p, args[id := Arg(rest[1..], true)], Ok)
          else Cluster(p.(awaiting := true, awaitingId := id), args, rest, disabled, k + 1)
        else Cluster(p, args[id := Arg([], !disabled)], rest, disabled, k + 1)
  }

  /** `argparse(ctx, map_id_to_arg, arg)`: one string of `argv`. An awaited
      value takes the string whatever it is; otherwise `"--"` starts a long
      option, `'-'` or `'+'` a cluster of short ones, and anything else is
      unexpected. The count of strings consumed grows only on success. */
  function ArgParse(p: ArgParser, args: Args, arg: string): (r: Step)
    requires Valid(p)
    ensures Valid(r.parser)
    ensures r.parser.templates == p.templates && r.parser.shortIndex == p.shortIndex
    ensures r.parser.longIndex == p.longIndex && r.parser.magic == p.magic
    ensures r.parser.count == if r.status == Ok then p.count + 1 else p.count
    ensures r.status != Ok ==> r.parser == p
    ensures r.status != ExpectedArgument
    ensures r.status == Unexpected <==> !p.awaiting && At(arg, 0) != '-' && At(arg, 0) != '+'
    ensures r.status == Unexpected ==> r.args == args
  {
    var r := if p.awaiting then Step(p.(awaiting := false), args[p.awaitingId := Arg(arg, true)], Ok)
             else if At(arg, 0) == '-' && At(arg, 1) == '-' then Long(p, args, arg)
             else if At(arg, 0) == '-' || At(arg, 0) == '+' then Cluster(p, args, arg[1..], At(arg, 0) == '+', 0)
             else Step(p, args, Unexpected);
    if r.status == Ok then r.(parser := r.parser.(count := r.parser.count + 1)) else r
  }

  /** `p` after one more string consumed. */
  function Counted(p: ArgParser): ArgParser
  {
    p.(count := p.count + 1)
  }

  /** While a value is awaited, the next string is that value, whatever
      it looks like, and the parser stops waiting. */
  lemma AwaitedValue(p: ArgParser, args: Args, arg: string)
    requires Valid(p) && p.awaiting
    ensures ArgParse(p, args, arg)
         == Step(Counted(p.(awaiting := false)), args[p.awaitingId := Arg(arg, true)], Ok)
  {
  }

  /** The long option `name` as it appears on the command line, with an
      optional glued-on value. */
  function LongArg(name: string, value: Option<string>): string
  {
    if value.Some? then "--" + name + "=" + value.value else "--" + name
  }

  /** Where `'='` is found in a long option, and what is read after it. */
  lemma LongArgShape(name: string, value: Option<string>)
    requires NulFree(name) && '=' !in name
    requires value.Some? ==> NulFree(value.value)
    ensures var arg := LongArg(name, value);
            var i := IndexOf(CString(arg), '=');
            At(arg, 0) == '-' && At(arg, 1) == '-'
            && (value.None? ==> i.None? && arg[2..] == name)
            && (value.Some? ==> i == Some(|name| + 2) && arg[2..|name| + 2] == name
                                && CString(arg[|name| + 3..]) == value.value)
  {
    var arg := LongArg(name, value);
    NulFreeCString(arg);
    if value.Some? {
      assert arg[..|name| + 2] == "--" + name;
      assert arg[|name| + 3..] == value.value;
      NulFreeCString(value.value);
      FirstIndex(CString(arg), '=', |name| + 2);
    } else {
      assert '=' !in arg by {
        assert forall m | 2 <= m < |arg| :: arg[m] == name[m - 2];
      }
    }
  }

  /** A string without `NUL` is its own C string. */
  lemma {:induction false} NulFreeCString(s: string)
    requires NulFree(s)
    ensures CString(s) == s
    decreases |s|
  {
    if s != [] {
      NulFreeCString(s[1..]);
    }
  }

  /** The index of the first occurrence is the one with no earlier one. */
  lemma {:induction false} FirstIndex(s: string, c: char, i: nat)
    requires i < |s| && s[i] == c && c !in s[..i]
    ensures IndexOf(s, c) == Some(i)
    decreases i
  {
    if i > 0 {
      assert s[..i][0] == s[0];
      assert s[1..][..i - 1] == s[..i][1..];
      FirstIndex(s[1..], c, i - 1);
    }
  }

  /** `"--name=value"` for a value-taking option records the value. */
  lemma LongValue(p: ArgParser, args: Args, name: string, value: string)
    requires Valid(p) && !p.awaiting
    requires NulFree(name) && '=' !in name && NulFree(value)
    requires name in p.longIndex && p.templates[p.longIndex[name]].takesValue
    ensures ArgParse(p, args, LongArg(name, Some(value)))
         == Step(Counted(p), args[IdOf(p.longIndex[name]) := Arg(value, true)], Ok)
  {
    LongArgShape(name, Some(value));
  }

  /** `"--name"` for a value-taking option awaits the value in the next
      string and records nothing yet. */
  lemma LongAwaits(p: ArgParser, args: Args, name: string)
    requires Valid(p) && !p.awaiting
    requires NulFree(name) && '=' !in name
    requires name in p.longIndex && p.templates[p.longIndex[name]].takesValue
    ensures ArgParse(p, args, LongArg(name, None))
         == Step(Counted(p.(awaiting := true, awaitingId := IdOf(p.longIndex[name]))), args, Ok)
  {
    LongArgShape(name, None);
  }

  /** `"--name"` or `"--name=anything"` for a toggle turns it on, and a
      glued-on value is ignored. */
  lemma LongToggle(p: ArgParser, args: Args, name: string, value: Option<string>)
    requires Valid(p) && !p.awaiting
    requires NulFree(name) && '=' !in name
    requires value.Some? ==> NulFree(value.value)
    requires name in p.longIndex && !p.templates[p.longIndex[name]].takesValue
    ensures ArgParse(p, args, LongArg(name, value))
         == Step(Counted(p), args[IdOf(p.longIndex[name]) := Arg([], true)], Ok)
  {
    LongArgShape(name, value);
  }

  /** An unregistered long name is reported and changes nothing. */
  lemma LongUnknown(p: ArgParser, args: Args, name: string, value: Option<string>)
    requires Valid(p) && !p.awaiting
    requires NulFree(name) && '=' !in name
    requires value.Some? ==> NulFree(value.value)
    requires name !in p.longIndex
    ensures ArgParse(p, args, LongArg(name, value)) == Step(p, args, Unknown)
  {
    LongArgShape(name, value);
  }

  /** `map_id_to_arg` holds the same for `id` in `a` and in `b`. */
  predicate SameAt(a: Args, b: Args, id: ArgId)
  {
    (id in a <==> id in b) && (id in a ==> a[id] == b[id])
  }

  /** The ids of the options `rest[k..j]`, all registered. */
  function IdsOf(p: ArgParser, rest: string, k: nat, j: nat): set<ArgId>
    requires k <= j <= |rest| && forall m | k <= m < j :: rest[m] in p.shortIndex
  {
    set m | k <= m < j :: IdOf(p.shortIndex[rest[m]])
  }

  /** A cluster whose first `j` options are toggles sets each of them on
      (`'-'`) or off (`'+'`) and touches no other id. What happens at `j`
      decides the result: the end of the cluster is success, an
      unregistered character is `Unknown` and a value-taking option is
      `Invalid`, the toggles before it staying recorded. */
  lemma ClusterToggles(p: ArgParser, args: Args, sign: char, rest: string, j: nat)
    requires Valid(p) && !p.awaiting && (sign == '-' || sign == '+')
    requires At(rest, 0) != '-' || sign == '+'
    requires j <= |rest|
    requires forall m | 0 <= m < j :: rest[m] in p.shortIndex && !p.templates[p.shortIndex[rest[m]]].takesValue
    requires j < |rest| ==> rest[j] !in p.shortIndex || (j > 0 && p.templates[p.shortIndex[rest[j]]].takesValue)
    ensures var r := ArgParse(p, args, [sign] + rest);
            var on := sign == '-';
            r.status == (if j == |rest| then Ok else if rest[j] !in p.shortIndex then Unknown else Invalid)
            && (forall m | 0 <= m < j :: IdOf(p.shortIndex[rest[m]]) in r.args
                                          && r.args[IdOf(p.shortIndex[rest[m]])] == Arg([], on))
            && (forall id: ArgId | id !in IdsOf(p, rest, 0, j) :: SameAt(r.args, args, id))
  {
    var arg := [sign] + rest;
    assert arg[1..] == rest;
    ClusterRun(p, args, rest, sign == '+', 0, j);
  }

  /** `ClusterToggles` from index `k` of the loop on. */
  lemma {:induction false} ClusterRun(p: ArgParser, args: Args, rest: string, disabled: bool, k: nat, j: nat)
    requires Valid(p) && k <= j <= |rest|
    requires forall m | 0 <= m < j :: rest[m] in p.shortIndex && !p.templates[p.shortIndex[rest[m]]].takesValue
    requires j < |rest| ==> rest[j] !in p.shortIndex || (j > 0 && p.templates[p.shortIndex[rest[j]]].takesValue)
    ensures var r := Cluster(p, args, rest, disabled, k);
            r.status == (if j == |rest| then Ok else if rest[j] !in p.shortIndex then Unknown else Invalid)
            && r.parser == p
            && (forall m | k <= m < j :: IdOf(p.shortIndex[rest[m]]) in r.args
                                          && r.args[IdOf(p.shortIndex[rest[m]])] == Arg([], !disabled))
            && (forall id: ArgId | id !in IdsOf(p, rest, k, j) :: SameAt(r.args, args, id))
    decreases j - k
  {
    if k < j {
      var id := IdOf(p.shortIndex[rest[k]]);
      var args' := args[id := Arg([], !disabled)];
      ClusterRun(p, args', rest, disabled, k + 1, j);
      var r := Cluster(p, args, rest, disabled, k);
      assert r == Cluster(p, args', rest, disabled, k + 1);
      assert IdsOf(p, rest, k, j) == {id} + IdsOf(p, rest, k + 1, j);
    }
  }

  /** A value-taking short option first in a cluster takes the rest of the
      cluster as its value; standing alone, it awaits the next string. */
  lemma ClusterValue(p: ArgParser, args: Args, sign: char, c: char, value: string)
    requires Valid(p) && !p.awaiting && (sign == '-' || sign == '+')
    requires c != '-' || sign == '+'
    requires c in p.shortIndex && p.templates[p.shortIndex[c]].takesValue
    ensures var r := ArgParse(p, args, [sign, c] + value);
            var id := IdOf(p.shortIndex[c]);
            if value == [] then r == Step(Counted(p.(awaiting := true, awaitingId := id)), args, Ok)
            else r == Step(Counted(p), args[id := Arg(value, true)], Ok)
  {
    var arg := [sign, c] + value;
    var rest := [c] + value;
    assert At(arg, 0) == sign && At(arg, 1) == c;
    assert arg[1..] == rest && rest[0] == c && rest[1..] == value;
    var id := IdOf(p.shortIndex[c]);
    var r := Cluster(p, args, rest, sign == '+', 0);
    if value == [] {
      assert r == Cluster(p.(awaiting := true, awaitingId := id), args, rest, sign == '+', 1);
      assert r == Step(p.(awaiting := true, awaitingId := id), args, Ok);
    } else {
      assert r == Step(p, args[id := Arg(value, true)], Ok);
    }
    assert ArgParse(p, args, arg) == r.(parser := Counted(r.parser));
  }

  /** Registering a value-taking long form and then parsing it with a
      glued-on value records that value under the id `argreg` returned. */
  lemma RegisteredLongValue(p: ArgParser, args: Args, shortForm: Option<string>, longForm: string,
                            help: string, value: string)
    requires Valid(p) && !p.awaiting && p.magic == ARGP_MAGIC_INIT_CONST
    requires NulFree(LongKey(longForm)) && '=' !in LongKey(longForm) && NulFree(value)
    ensures var reg := ArgReg(p, shortForm, Some(longForm), true, help).value;
            ArgParse(reg.parser, args, LongArg(LongKey(longForm), Some(value))).args
              == args[reg.id := Arg(value, true)]
  {
    var reg := ArgReg(p, shortForm, Some(longForm), true, help).value;
    LongValue(reg.parser, args, LongKey(longForm), value);
  }

  /** Registering a toggle's short form and then giving it alone, after
      `'-'` or `'+'`, turns it on or off under the id `argreg` returned. */
  lemma RegisteredShortToggle(p: ArgParser, args: Args, shortForm: string, longForm: Option<string>,
                              help: string, sign: char)
    requires Valid(p) && !p.awaiting && p.magic == ARGP_MAGIC_INIT_CONST
    requires sign == '-' || sign == '+'
    requires ShortKey(shortForm) != '-' || sign == '+'
    ensures var reg := ArgReg(p, Some(shortForm), longForm, false, help).value;
            ArgParse(reg.parser, args, [sign, ShortKey(shortForm)]).args
              == args[reg.id := Arg([], sign == '-')]
  {
    var reg := ArgReg(p, Some(shortForm), longForm, false, help).value;
    var c := ShortKey(shortForm);
    ClusterToggles(reg.parser, args, sign, [c], 1);
    assert [sign] + [c] == [sign, c];
    assert IdsOf(reg.parser, [c], 0, 1) == {reg.id};
    var r := ArgParse(reg.parser, args, [sign, c]);
    var expected := args[reg.id := Arg([], sign == '-')];
    forall id: ArgId
      ensures id in r.args <==> id in expected
      ensures id in r.args ==> r.args[id] == expected[id]
    {
      if id != reg.id {
        assert id !in IdsOf(reg.parser, [c], 0, 1);
        assert SameAt(r.args, args, id);
      } else {
        assert IdOf(reg.parser.shortIndex[[c][0]]) == reg.id;
      }
    }
    assert r.args == expected;
  }

  /** `argparseall_c` as a reference: the strings of `argv` in order, each
      through `argparse`, stopping at the first result that is not `Ok`. */
  function ParseAll(p: ArgParser, args: Args, argv: seq<string>): (r: Step)
    requires Valid(p)
    ensures Valid(r.parser) && r.parser.templates == p.templates
    ensures r.parser.shortIndex == p.shortIndex && r.parser.longIndex == p.longIndex
    ensures r.status != ExpectedArgument
    ensures r.status == Ok ==> r.parser.count == p.count + |argv|
    ensures r.status != Ok ==> p.count <= r.parser.count < p.count + |argv|
    decreases |argv|
  {
    if argv == [] then Step(p, args, Ok)
    else
      var before := ParseAll(p, args, argv[..|argv| - 1]);
      if before.status != Ok then before
      else ArgParse(before.parser, before.args, argv[|argv| - 1])
  }

  /** Once a prefix of `argv` has failed, the strings after it are never
      parsed. */
  lemma {:induction false} ParseAllStops(p: ArgParser, args: Args, argv: seq<string>, k: nat)
    requires Valid(p) && k <= |argv|
    requires ParseAll(p, args, argv[..k]).status != Ok
    ensures ParseAll(p, args, argv) == ParseAll(p, args, argv[..k])
    decreases |argv| - k
  {
    if k < |argv| {
      assert argv[..|argv| - 1][..k] == argv[..k];
      ParseAllStops(p, args, argv[..|argv| - 1], k);
    } else {
      assert argv[..k] == argv;
    }
  }

  /** `argparseall_c(ctx, map_id_to_arg, argc, argv)`: the loop with its
      `break`. */
  method ArgParseAll(p: ArgParser, args: Args, argv: seq<string>) returns (r: Step)
    requires Valid(p)
    ensures r == ParseAll(p, args, argv)
    ensures r.status == Ok ==> r.parser.count == p.count + |argv|
  {
    r := Step(p, args, Ok);
    var i := 0;
    while i < |argv|
      invariant 0 <= i <= |argv|
      invariant r == ParseAll(p, args, argv[..i]) && r.status == Ok
    {
      assert argv[..i + 1][..i] == argv[..i];
      var next := ArgParse(r.parser, r.args, argv[i]);
      if next.status != Ok {
        r := next;
        ParseAllStops(p, args, argv, i + 1);
        return;
      }
      r := next;
      i := i + 1;
    }
    assert argv[..i] == argv;
  }
}
