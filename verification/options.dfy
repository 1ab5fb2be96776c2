/** The option parser as a function of the command line: what each token means. */
module Options {
  import opened Machine
  import opened Numbers

  // ----- option tables

  datatype Kind =
    | Argument | Group
    | Bit | Boolean | Incr | SetUint | SetPtr
    | Str | Integer | Long | Callback | U64 | UInteger | Filename

  /** `loc` is the variable the option writes, `given` the flag that tells it was given. */
  datatype Opt = Opt(kind: Kind, short: Option<char>, long: Option<string>, loc: nat, given: Option<nat>)

  type Table = seq<Opt>

  datatype Flags = Flags(keepDashDash: bool, stopAtNonOption: bool, keepArgv0: bool,
                         keepUnknown: bool, internalHelp: bool)

  /** What every command here passes: no flag is set; so the internal help is on. */
  const DEFAULTS := Flags(false, false, false, false, true)

  /** What a variable holds; the null string is TextV(None). */
  datatype Value = BoolV(b: bool) | NumV(n: int) | TextV(s: Option<string>)

  type Store = map<nat, Value>

  // ----- one option and its value

  /** A refused number has already been stored. */
  datatype Got =
    | Got(attached: Option<string>, used: nat, store: Store)
    | Refused(store: Store)
    | Died

  /** The kinds that never take a value. */
  predicate IsSwitch(k: Kind) {
    k in {Bit, Boolean, Incr, SetUint, SetPtr}
  }

  predicate TakesValue(k: Kind) {
    k in {Str, Filename, Integer, UInteger, Long, U64}
  }

  function NumberKindOf(k: Kind): NumberKind
    requires TakesValue(k) && k !in {Str, Filename}
  {
    match k
    case Integer => SignedInt
    case UInteger => UnsignedInt
    case Long => SignedLong
    case _ => Unsigned64
  }

  /** What the variable becomes when the option is given the text v, and whether v is accepted. */
  function Reading(k: Kind, v: string): (Value, bool)
    requires TakesValue(k)
  {
    if k in {Str, Filename} then (TextV(Some(v)), true)
    else
      var (n, accepted) := OptionReading(NumberKindOf(k), v);
      (NumV(n), accepted)
  }

  /** What a switch does to the store. */
  function Switch(o: Opt, unset: bool, s: Store): Store
    requires IsSwitch(o.kind)
  {
    match o.kind
    case Boolean =>
      var s' := s[o.loc := BoolV(!unset)];
      if o.given.Some? then s'[o.given.value := BoolV(true)] else s'
    case Incr =>
      var n := if o.loc in s && s[o.loc].NumV? then s[o.loc].n else 0;
      s[o.loc := NumV(if unset then 0 else ToInt32(n + 1))]
    case _ => s
  }

  /** What the negated form of an option with a value does. */
  function Cleared(o: Opt, s: Store): Store
    requires TakesValue(o.kind)
  {
    s[o.loc := if o.kind in {Str, Filename} then TextV(None) else NumV(0)]
  }

  /** An attached value comes first, then the next token. */
  function TakeValue(o: Opt, attached: Option<string>, next: seq<string>, s: Store): (g: Got)
    requires TakesValue(o.kind)
    ensures g.Got? ==> g.attached == None && g.used == (if attached.Some? then 0 else 1) <= |next|
  {
    if attached.None? && next == [] then Refused(s)
    else
      var (v, accepted) := Reading(o.kind, if attached.Some? then attached.value else next[0]);
      if !accepted then Refused(s[o.loc := v])
      else Got(None, if attached.Some? then 0 else 1, s[o.loc := v])
  }

  /** `attached` is the text after `=` or the rest of a cluster, `next` the tokens after this one. */
  function GetValue(o: Opt, short: bool, unset: bool, attached: Option<string>,
                    next: seq<string>, s: Store): (g: Got)
    ensures g.Got? ==> g.used <= 1 && g.used <= |next| && g.attached in {None, attached}
    ensures g.Got? && g.attached.Some? ==> short && g.used == 0
  {
    if unset && attached.Some? then Refused(s)
    else if !short && attached.Some? && (IsSwitch(o.kind) || o.kind == Callback) then Refused(s)
    else if IsSwitch(o.kind) then Got(attached, 0, Switch(o, unset, s))
    else if !TakesValue(o.kind) then Died
    else if unset then Got(attached, 0, Cleared(o, s))
    else TakeValue(o, attached, next, s)
  }

  // ----- short switches

  /** The first option from index i on with the short name c. */
  function FindShort(t: Table, c: char, i: nat): (r: Option<nat>)
    requires i <= |t|
    ensures r.Some? ==> i <= r.value < |t| && t[r.value].short == Some(c)
    ensures r.Some? ==> forall k :: i <= k < r.value ==> t[k].short != Some(c)
    ensures r.None? ==> forall k :: i <= k < |t| ==> t[k].short != Some(c)
    decreases |t| - i
  {
    if i == |t| then None
    else if t[i].short == Some(c) then Some(i)
    else FindShort(t, c, i + 1)
  }

  /** A cluster that looks like a long option with one dash too few. */
  predicate LooksLikeLong(t: Table, word: string) {
    |word| >= 3 &&
    ("no-" <= word || exists i :: 0 <= i < |t| && t[i].long.Some? && word <= t[i].long.value)
  }

  /** Why parsing ends before the command line does; all of these end the process. */
  datatype Why = Help | Misuse | ListOpts | ListCmds | Typo | Unknown | Fatal

  datatype ClusterEnd =
    | Consumed(used: nat, store: Store)
    | NotFound(token: string, store: Store)
    | Stopped(why: Why)

  datatype SwitchEnd =
    | Last(used: nat, store: Store)
    | More(rest: string, store: Store)
    | Missing
    | Broken(why: Why)

  /** The first switch of a cluster. */
  function OneSwitch(t: Table, f: Flags, opt: string, next: seq<string>, s: Store): (r: SwitchEnd)
    requires opt != ""
    ensures r.Last? ==> r.used <= 1 && r.used <= |next|
    ensures r.More? ==> r.rest != "" && r.rest == opt[1..]
  {
    if f.internalHelp && opt[0] == 'h' then Broken(Help)
    else
      match FindShort(t, opt[0], 0)
      case None => Missing
      case Some(i) =>
        match GetValue(t[i], true, false, if |opt| > 1 then Some(opt[1..]) else None, next, s)
        case Refused(_) => Broken(Misuse)
        case Died => Broken(Fatal)
        case Got(attached, used, s') => if attached.None? then Last(used, s') else More(attached.value, s')
  }

  /** The switches of `opt`, the yet unread end of the cluster `whole`. */
  function Cluster(t: Table, f: Flags, whole: string, opt: string, next: seq<string>, s: Store): (r: ClusterEnd)
    requires opt != ""
    ensures r.Consumed? ==> r.used <= 1 && r.used <= |next|
    decreases |opt|
  {
    match OneSwitch(t, f, opt, next, s)
    case Missing => NotFound("-" + opt, s)
    case Broken(why) => Stopped(why)
    case Last(used, s') => Consumed(used, s')
    case More(rest, s') =>
      if |opt| == |whole| && LooksLikeLong(t, whole) then Stopped(Typo)
      else Cluster(t, f, whole, rest, next, s')
  }

  // ----- long options

  /** The position of the first `=`, or the length of the text. */
  function StemLength(arg: string): (n: nat)
    ensures n <= |arg|
    ensures forall k :: 0 <= k < n ==> arg[k] != '='
    ensures n < |arg| ==> arg[n] == '='
  {
    if arg == "" || arg[0] == '=' then 0 else 1 + StemLength(arg[1..])
  }

  function Stem(arg: string): string {
    arg[..StemLength(arg)]
  }

  /** The text after the first `=`. */
  function Attached(arg: string): Option<string> {
    var n := StemLength(arg);
    if n < |arg| then Some(arg[n + 1..]) else None
  }

  /** What one entry of the table has to say about a long argument. */
  datatype Verdict =
    | Skip
    | KeepArgument
    | ArgumentMisused
    | Exact(unset: bool, value: Option<string>)
    | Abbreviates(unset: bool)

  /** `rest` is what follows the name: nothing, or a value after `=`, or else it was no match. */
  function MatchRest(rest: string, unset: bool): Verdict {
    if rest == "" then Exact(unset, None)
    else if rest[0] == '=' then Exact(unset, Some(rest[1..]))
    else Skip
  }

  function Consider(o: Opt, arg: string): Verdict {
    if o.long.None? then Skip
    else
      var name := o.long.value;
      if o.kind == Argument then
        if !(name <= arg) then Skip
        else if arg == name then KeepArgument
        else if arg[|name|] == '=' then ArgumentMisused
        else Skip
      else if name <= arg then MatchRest(arg[|name|..], false)
      else if "no-" <= name && name[3..] <= arg then MatchRest(arg[|name| - 3..], true)
      else if "no-" <= name && arg <= name[3..] then Abbreviates(true)
      else if Stem(arg) <= name then Abbreviates(false)
      else if arg <= "no-" then Abbreviates(true)
      else if !("no-" <= arg) then Skip
      else if name <= arg[3..] then MatchRest(arg[3 + |name|..], true)
      else if arg[3..] <= name then Abbreviates(true)
      else Skip
  }

  datatype Candidate = Candidate(index: nat, unset: bool)

  datatype Selection =
    | Pick(cand: Candidate, attached: Option<string>)
    | PickArgument(dangling: Option<string>)
    | MisusedArgument
    | Ambiguous
    | NoMatch

  /** The scan of the table from entry i on: the last abbreviation seen so far, whether there
      was another one before it, and the value found behind an abbreviated name. */
  function Select(t: Table, arg: string, i: nat, abbrev: Option<Candidate>,
                  ambiguous: bool, attached: Option<string>): (r: Selection)
    requires i <= |t|
    requires abbrev.Some? ==> abbrev.value.index < |t|
    ensures r.Pick? ==> r.cand.index < |t|
    decreases |t| - i
  {
    if i == |t| then
      if ambiguous then Ambiguous
      else if abbrev.Some? then Pick(abbrev.value, attached)
      else NoMatch
    else
      match Consider(t[i], arg)
      case Skip => Select(t, arg, i + 1, abbrev, ambiguous, attached)
      case KeepArgument => PickArgument(attached)
      case ArgumentMisused => MisusedArgument
      case Exact(unset, v) => Pick(Candidate(i, unset), if v.Some? then v else attached)
      case Abbreviates(unset) =>
        Select(t, arg, i + 1, Some(Candidate(i, unset)), ambiguous || abbrev.Some?,
               if !unset && Attached(arg).Some? then Attached(arg) else attached)
  }

  /** The scan of the whole table. It starts with the value that was left over from an earlier
      token, which a plain argument with `=` in its name can bring about. */
  function SelectLong(t: Table, arg: string, dangling: Option<string>): (r: Selection)
    ensures r.Pick? ==> r.cand.index < |t|
  {
    Select(t, arg, 0, None, false, dangling)
  }

  // ----- whole command lines

  /** What happens to the first of the tokens still to be read. Only a token that is kept can
      leave a dangling value to the next one. */
  datatype Move =
    | Keep(token: string, store: Store, dangling: Option<string>)
    | Eat(used: nat, store: Store)
    | Finish(dropped: nat)
    | Halt(why: Why)

  function MoveUnknown(f: Flags, token: string, s: Store): Move {
    if f.keepUnknown then Keep(token, s, None) else Halt(Unknown)
  }

  /** A token with one dash; `next` are the tokens after it. */
  function NextShort(t: Table, f: Flags, arg: string, next: seq<string>, s: Store): (m: Move)
    requires |arg| >= 2
    ensures m.Eat? ==> 1 <= m.used <= 2 && m.used <= 1 + |next|
    ensures !m.Finish?
  {
    match Cluster(t, f, arg[1..], arg[1..], next, s)
    case Consumed(used, s') => Eat(1 + used, s')
    case NotFound(token, s') => MoveUnknown(f, token, s')
    case Stopped(why) => Halt(why)
  }

  /** Names that are no options: they end the parse with a listing. */
  function Reserved(f: Flags, name: string): Option<Why> {
    if f.internalHelp && (name == "help-all" || name == "help") then Some(Help)
    else if name == "list-opts" then Some(ListOpts)
    else if name == "list-cmds" then Some(ListCmds)
    else None
  }

  /** A token with two dashes and a name. */
  function NextLong(t: Table, f: Flags, arg: string, next: seq<string>, s: Store,
                    dangling: Option<string>): (m: Move)
    requires |arg| >= 2
    ensures m.Eat? ==> 1 <= m.used <= 2 && m.used <= 1 + |next|
    ensures !m.Finish?
  {
    var name := arg[2..];
    if Reserved(f, name).Some? then Halt(Reserved(f, name).value)
    else
      match SelectLong(t, name, dangling)
      case NoMatch => MoveUnknown(f, arg, s)
      case PickArgument(dangling') => Keep(arg, s, dangling')
      case MisusedArgument => Halt(Misuse)
      case Ambiguous => Halt(Misuse)
      case Pick(cand, attached) =>
        match GetValue(t[cand.index], false, cand.unset, attached, next, s)
        case Got(_, used, s') => Eat(1 + used, s')
        case Refused(_) => Halt(Misuse)
        case Died => Halt(Fatal)
  }

  predicate IsOperand(token: string) {
    |token| < 2 || token[0] != '-'
  }

  function Next(t: Table, f: Flags, toks: seq<string>, s: Store, dangling: Option<string>): (m: Move)
    requires toks != []
    ensures m.Eat? ==> 1 <= m.used <= 2 && m.used <= |toks|
    ensures m.Finish? ==> m.dropped <= 1
  {
    var arg := toks[0];
    if IsOperand(arg) then
      if f.stopAtNonOption then Finish(0) else Keep(arg, s, dangling)
    else if arg[1] != '-' then NextShort(t, f, arg, toks[1..], s)
    else if |arg| == 2 then Finish(if f.keepDashDash then 0 else 1)
    else NextLong(t, f, arg, toks[1..], s, dangling)
  }

  datatype Outcome =
    | Done(kept: seq<string>, rest: seq<string>, store: Store)
    | Exit(why: Why)

  function Parse(t: Table, f: Flags, toks: seq<string>, kept: seq<string>, s: Store,
                 dangling: Option<string>): Outcome
    decreases |toks|
  {
    if toks == [] then Done(kept, [], s)
    else
      match Next(t, f, toks, s, dangling)
      case Keep(token, s', dangling') => Parse(t, f, toks[1..], kept + [token], s', dangling')
      case Eat(used, s') => Parse(t, f, toks[used..], kept, s', None)
      case Finish(dropped) => Done(kept, toks[dropped..], s)
      case Halt(why) => Exit(why)
  }
}
