/** The option parser at work: it compacts argv in place while it reads it. */
module ParseContext {
  import opened Machine
  import opened Options
  import Numbers

  /** A slot of argv holds a string or the null pointer. */
  type Slot = Option<string>

  ghost predicate AllStrings(s: seq<Slot>) {
    forall i :: 0 <= i < |s| ==> s[i].Some?
  }

  function Strings(s: seq<Slot>): (r: seq<string>)
    ensures |r| == |s|
  {
    seq(|s|, i requires 0 <= i < |s| => s[i].GetOr(""))
  }

  lemma StringsParts(s: seq<Slot>, s': seq<Slot>)
    ensures Strings(s + s') == Strings(s) + Strings(s')
    ensures AllStrings(s + s') <==> AllStrings(s) && AllStrings(s')
    ensures forall k :: 0 <= k <= |s| ==> Strings(s)[k..] == Strings(s[k..])
  {
    assert forall i :: 0 <= i < |s| ==> (s + s')[i] == s[i];
    assert forall i :: 0 <= i < |s'| ==> (s + s')[|s| + i] == s'[i];
  }

  /** The slots before w and those after at. */
  ghost function Outside(slots: seq<Slot>, w: nat, at: nat): (seq<Slot>, seq<Slot>) {
    (if w <= |slots| then slots[..w] else slots, if at < |slots| then slots[at + 1..] else [])
  }

  lemma StringsFrom(slots: seq<Slot>, a: nat, b: nat, end: nat)
    requires a <= b <= end <= |slots|
    ensures Strings(slots[b..end]) == Strings(slots[a..end])[b - a..]
  {
    assert slots[b..end] == slots[a..end][b - a..];
  }

  lemma FirstString(slots: seq<Slot>, at: nat, end: nat)
    requires at < end <= |slots| && AllStrings(slots[at..end])
    ensures slots[at].Some? && AllStrings(slots[at + 1..end])
    ensures Strings(slots[at..end]) == [slots[at].value] + Strings(slots[at + 1..end])
  {
    assert slots[at..end][0] == slots[at];
    assert slots[at..end] == [slots[at]] + slots[at + 1..end];
    StringsParts([slots[at]], slots[at + 1..end]);
    assert Strings([slots[at]]) == [slots[at].value];
  }

  /** Slots outside w..at are the same in both; then so are the stretches that the parser
      cares about, apart from a string that was written at w. */
  lemma SlotsAfterStep(o: seq<Slot>, n: seq<Slot>, from: nat, w: nat, at: nat, end: nat, used: nat)
    requires |o| == |n| && from <= w <= at < end <= |o| && 0 < used <= end - at
    requires Outside(o, w, at) == Outside(n, w, at)
    requires AllStrings(o[at..end]) && AllStrings(o[from..w])
    ensures n[..from] == o[..from] && n[from..w] == o[from..w] && n[end..] == o[end..]
    ensures AllStrings(n[at + used..end]) && Strings(n[at + used..end]) == Strings(o[at..end])[used..]
    ensures n[w].Some? ==>
              AllStrings(n[from..w + 1]) && Strings(n[from..w + 1]) == Strings(o[from..w]) + [n[w].value]
  {
    forall k | 0 <= k < w ensures n[k] == o[k] {
      assert n[..w][k] == o[..w][k];
    }
    forall k | at < k < |o| ensures n[k] == o[k] {
      assert n[at + 1..][k - at - 1] == o[at + 1..][k - at - 1];
    }
    assert n[at + used..end] == o[at..end][used..];
    StringsParts(o[at..end], []);
    assert n[from..w + 1] == o[from..w] + [n[w]];
    StringsParts(o[from..w], [n[w]]);
  }

  lemma JoinedStrings(slots: seq<Slot>, from: nat, w: nat, at: nat, end: nat)
    requires from <= w <= at <= end <= |slots|
    requires AllStrings(slots[..from]) && AllStrings(slots[from..w]) && AllStrings(slots[at..end])
    ensures AllStrings(slots[..w] + slots[at..end])
    ensures Strings(slots[..w] + slots[at..end])
            == Strings(slots[..from]) + Strings(slots[from..w]) + Strings(slots[at..end])
  {
    assert slots[..w] == slots[..from] + slots[from..w];
    StringsParts(slots[..from], slots[from..w]);
    StringsParts(slots[..w], slots[at..end]);
  }

  /** The result of a helper: 0, -1 for an error that was reported, -2 for an unknown
      option; `Dead` when the process was ended on the spot. */
  datatype Code = Fine | Bad | NoSuch | Dead

  datatype Status = Running | Finished | Ended(why: Why)

  /** The parser's state as a value. */
  datatype View = View(slots: seq<Slot>, at: nat, argc: nat, cpidx: nat, opt: Option<string>, store: Store)
  {
    ghost predicate Valid() {
      at + argc < |slots| && AllStrings(slots[at..at + argc])
    }

    ghost function Tokens(): seq<string>
      requires Valid()
    {
      Strings(slots[at..at + argc])
    }

    /** The strings that were kept since the write position was at `from`. */
    ghost function Kept(from: nat): seq<string> {
      if from <= cpidx <= |slots| then Strings(slots[from..cpidx]) else []
    }

    ghost function Ahead(from: nat): Progress
      requires Valid()
    {
      Progress(Tokens(), Kept(from), store, opt)
    }

    function Next(): View
      requires argc > 0
    {
      this.(at := at + 1, argc := argc - 1)
    }
  }

  /** The state after the loop body has dealt with the current token as move m says. The
      slots between the write position and the current token are all that may change. */
  ghost predicate Moved(m: Move, status: Status, v: View, v': View)
    requires v.argc > 0
  {
    if m.Halt? then status == Ended(m.why)
    else
      && |v'.slots| == |v.slots|
      && Outside(v'.slots, v.cpidx, v.at) == Outside(v.slots, v.cpidx, v.at)
      && match m {
           case Keep(token, s, dangling) =>
             && status == Running && v' == View(v'.slots, v.at, v.argc, v.cpidx + 1, dangling, s)
             && v.cpidx < |v'.slots| && v'.slots[v.cpidx] == Some(token)
           case Eat(used, s) =>
             && status == Running && 1 <= used <= v.argc
             && v' == View(v'.slots, v.at + used - 1, v.argc - (used - 1), v.cpidx, None, s)
           case Finish(dropped) =>
             && status == Finished && dropped <= v.argc
             && v' == View(v.slots, v.at + dropped, v.argc - dropped, v.cpidx, v.opt, v.store)
           case Halt(_) => true
         }
  }

  /** The tokens ahead, the strings kept so far, the store and the dangling value. */
  datatype Progress = Progress(toks: seq<string>, kept: seq<string>, store: Store, opt: Option<string>)

  /** What a move makes of them. */
  ghost predicate Carried(m: Move, status: Status, p: Progress, p': Progress) {
    match m
    case Keep(token, s, dangling) =>
      status == Running && p.toks != [] && p' == Progress(p.toks[1..], p.kept + [token], s, dangling)
    case Eat(used, s) =>
      status == Running && used <= |p.toks| && p' == Progress(p.toks[used..], p.kept, s, None)
    case Finish(dropped) =>
      status == Finished && dropped <= |p.toks| && p' == p.(toks := p.toks[dropped..])
    case Halt(why) => status == Ended(why)
  }

  /** The slots before `from` and those from `end` on are as they were. */
  ghost predicate Framed(slots: seq<Slot>, was: seq<Slot>, from: nat, end: nat) {
    && from <= end <= |was| && |slots| == |was|
    && slots[..from] == was[..from] && slots[end..] == was[end..]
  }

  /** What is kept since the write position was at `from` stands before the tokens ahead, which
      reach up to `end`; the slots around are those of `was`. */
  ghost predicate Compacting(v: View, was: seq<Slot>, from: nat, end: nat) {
    && from <= v.cpidx <= v.at && v.at + v.argc == end
    && Framed(v.slots, was, from, end) && AllStrings(v.slots[from..v.cpidx])
  }

  lemma WritesBehind(v: View, was: seq<Slot>, from: nat, end: nat)
    requires Compacting(v, was, from, end)
    ensures v.cpidx <= v.at
  {
  }

  lemma StartsCompacting(v: View)
    requires v.Valid() && v.cpidx <= v.at
    ensures Compacting(v, v.slots, v.cpidx, v.at + v.argc) && v.Kept(v.cpidx) == []
  {
    NothingKept(v.slots[v.cpidx..v.cpidx]);
  }

  lemma NothingKept(slots: seq<Slot>)
    requires slots == []
    ensures AllStrings(slots) && Strings(slots) == []
  {
  }

  /** What becomes of the rest. */
  function ParseAhead(t: Table, f: Flags, p: Progress): Outcome {
    Parse(t, f, p.toks, p.kept, p.store, p.opt)
  }

  lemma StartsAhead(t: Table, f: Flags, p: Progress)
    ensures ParseAhead(t, f, p) == Parse(t, f, p.toks, p.kept, p.store, p.opt)
  {
  }

  lemma NothingAhead(t: Table, f: Flags, p: Progress)
    requires p.toks == []
    ensures ParseAhead(t, f, p) == Done(p.kept, p.toks, p.store)
  {
  }

  /** A move within an array, towards its front. */
  method MoveDown(a: array<Slot>, w: nat, at: nat, n: nat)
    requires w <= at && at + n <= a.Length
    modifies a
    ensures forall k :: 0 <= k < w ==> a[k] == old(a[k])
    ensures forall k :: w <= k < w + n ==> a[k] == old(a[k + (at - w)])
    ensures forall k :: w + n <= k < a.Length ==> a[k] == old(a[k])
  {
    forall k | w <= k < w + n {
      a[k] := a[k + (at - w)];
    }
  }

  /** The slots after n of them were moved from `at` to w. */
  lemma MovedSlots(o: seq<Slot>, s: seq<Slot>, w: nat, at: nat, n: nat)
    requires |o| == |s| && w <= at && at + n < |o|
    requires forall k :: 0 <= k < w ==> s[k] == o[k]
    requires forall k :: w <= k < w + n ==> s[k] == o[k + (at - w)]
    requires forall k :: w + n < k < |o| ==> s[k] == o[k]
    ensures s[..w + n] == o[..w] + o[at..at + n]
    ensures s[w + n + 1..] == o[w + n + 1..]
  {
  }

  /** Move the tokens down and put a null slot behind them. */
  method CloseList(a: array<Slot>, w: nat, at: nat, n: nat)
    requires w <= at && at + n < a.Length
    modifies a
    ensures a[..][..w + n] == old(a[..])[..w] + old(a[..])[at..at + n]
    ensures a[w + n] == None
    ensures a[..][w + n + 1..] == old(a[..])[w + n + 1..]
  {
    ghost var o := a[..];
    MoveDown(a, w, at, n);
    a[w + n] := None;
    ghost var s := a[..];
    assert forall k :: 0 <= k < w ==> s[k] == o[k];
    assert forall k :: w <= k < w + n ==> s[k] == o[k + (at - w)];
    assert forall k :: w + n < k < |o| ==> s[k] == o[k];
    MovedSlots(o, s, w, at, n);
  }

  /** What a round means for the rest of the parse. */
  lemma ParseRound(t: Table, f: Flags, status: Status, p: Progress, p': Progress)
    requires p.toks != [] && Carried(Next(t, f, p.toks, p.store, p.opt), status, p, p')
    ensures ParseAhead(t, f, p) ==
            match status
            case Running => ParseAhead(t, f, p')
            case Finished => Done(p'.kept, p'.toks, p'.store)
            case Ended(why) => Exit(why)
  {
    hide Next;
  }

  /** A move that stays in the loop, seen from the next round. */
  lemma AfterMove(m: Move, status: Status, v: View, v': View, was: seq<Slot>, from: nat, end: nat)
    requires v.Valid() && v.argc > 0 && Compacting(v, was, from, end)
    requires Moved(m, status, v, v') && status == Running
    ensures 0 < v'.argc <= v.argc && v'.Next().Valid() && Compacting(v'.Next(), was, from, end)
    ensures Carried(m, status, v.Ahead(from), v'.Next().Ahead(from))
  {
    hide Strings, AllStrings, Outside;
    SlotsAfterStep(v.slots, v'.slots, from, v.cpidx, v.at, v.at + v.argc, if m.Eat? then m.used else 1);
  }

  /** The outcomes of a cluster as moves. */
  lemma ShortStopped(t: Table, f: Flags, arg: string, next: seq<string>, v: View, v': View, why: Why)
    requires |arg| >= 2 && v.argc > 0
    requires Cluster(t, f, arg[1..], arg[1..], next, v.store) == Stopped(why)
    ensures Moved(NextShort(t, f, arg, next, v.store), Ended(why), v, v')
  {
    hide Cluster;
  }

  lemma ShortNotFound(t: Table, f: Flags, arg: string, next: seq<string>, v: View, v': View, token: string,
                      s: Store, status: Status)
    requires |arg| >= 2 && v.argc > 0 && v.cpidx <= v.at < |v.slots|
    requires Cluster(t, f, arg[1..], arg[1..], next, v.store) == NotFound(token, s)
    requires if f.keepUnknown then
               && status == Running
               && v' == View(v.slots[v.at := Some(token)][v.cpidx := Some(token)], v.at, v.argc, v.cpidx + 1, None, s)
             else status == Ended(Unknown)
    ensures Moved(NextShort(t, f, arg, next, v.store), status, v, v')
  {
    hide Cluster;
  }

  lemma ShortConsumed(t: Table, f: Flags, arg: string, next: seq<string>, v: View, v': View, used: nat, s: Store)
    requires |arg| >= 2 && v.argc > 0 && used < v.argc
    requires Cluster(t, f, arg[1..], arg[1..], next, v.store) == Consumed(used, s)
    requires v' == View(v.slots, v.at + used, v.argc - used, v.cpidx, None, s)
    ensures Moved(NextShort(t, f, arg, next, v.store), Running, v, v')
  {
    hide Cluster;
  }

  lemma AfterFinish(m: Move, status: Status, v: View, v': View, was: seq<Slot>, from: nat, end: nat)
    requires v.Valid() && v.argc > 0 && v'.Valid() && Compacting(v, was, from, end)
    requires Moved(m, status, v, v') && status == Finished
    ensures Compacting(v', was, from, end)
    ensures Carried(m, status, v.Ahead(from), v'.Ahead(from))
  {
    hide AllStrings, Strings, Outside, Framed;
    StringsFrom(v.slots, v.at, v'.at, v.at + v.argc);
  }

  lemma AfterHalt(m: Move, status: Status, v: View, v': View, p: Progress, p': Progress)
    requires v.argc > 0 && Moved(m, status, v, v') && status.Ended?
    ensures Carried(m, status, p, p')
  {
  }

  class Ctx {
    const out: array<Slot>
    const flags: Flags
    var at: nat          // the read position, argv - out
    var argc: nat        // the number of tokens from there on
    var cpidx: nat       // the write position
    var opt: Option<string>
    var store: Store     // the option variables

    ghost function V(): View
      reads this, out
    {
      View(out[..], at, argc, cpidx, opt, store)
    }

    ghost predicate Valid()
      reads this, out
    {
      V().Valid()
    }

    /** The tokens still to be read. */
    ghost function Tokens(): seq<string>
      requires Valid()
      reads this, out
    {
      V().Tokens()
    }

    /** The tokens after the current one. */
    ghost function Following(): seq<string>
      requires Valid() && argc > 0
      reads this, out
    {
      Strings(out[..][at + 1..at + argc])
    }

    /** parse_options_start, for an argv of argc strings and a null pointer behind them. */
    constructor (argc: nat, argv: array<Slot>, flags: Flags, store: Store)
      requires 1 <= argc < argv.Length && AllStrings(argv[..][..argc])
      ensures Valid()
      ensures out == argv && this.flags == flags && this.store == store
      ensures at == 1 && this.argc == argc - 1 && cpidx == (if flags.keepArgv0 then 1 else 0)
      ensures Tokens() == Strings(argv[..][1..argc])
    {
      this.argc, at, out := argc - 1, 1, argv;
      cpidx := if flags.keepArgv0 then 1 else 0;
      this.flags, opt, this.store := flags, None, store;
      new;
      assert forall i :: 0 <= i < argc - 1 ==> argv[..][1..argc][i] == argv[..][..argc][i + 1];
    }

    lemma CurrentToken()
      requires Valid() && argc > 0
      ensures out[at].Some? && AllStrings(out[..][at + 1..at + argc])
      ensures Tokens() == [out[at].value] + Following()
    {
      assert out[..][at] == out[at];
      FirstString(out[..], at, at + argc);
    }

    method GetArg() returns (code: Code, arg: string)
      requires Valid() && argc > 0
      modifies this`at, this`argc, this`opt
      ensures Valid()
      ensures opt == None
      ensures if old(opt).Some? then
                code == Fine && arg == old(opt).value && at == old(at) && argc == old(argc)
              else if old(Following()) != [] then
                code == Fine && arg == old(Following())[0] && at == old(at) + 1 && argc == old(argc) - 1
              else
                code == Bad && at == old(at) && argc == old(argc)
    {
      arg := "";
      assert |Following()| == argc - 1;
      if opt.Some? {
        arg := opt.value;
        opt := None;
        return Fine, arg;
      } else if argc > 1 {
        CurrentToken();
        assert out[at + 1] == out[..][at + 1..at + argc][0];
        argc := argc - 1;
        at := at + 1;
        return Fine, out[at].value;
      }
      return Bad, arg;
    }

    /** The code, the position and the store after an option with the pure result g. */
    twostate predicate Obtained(g: Got, code: Code)
      reads this
    {
      match g
      case Refused(s) => code == Bad && store == s
      case Died => code == Dead
      case Got(attached, used, s) =>
        && code == Fine && opt == attached && store == s
        && at == old(at) + used && argc == old(argc) - used
    }

    method ApplySwitch(o: Opt, unset: bool)
      requires IsSwitch(o.kind)
      modifies this`store
      ensures store == Switch(o, unset, old(store))
    {
      match o.kind {
        case Boolean =>
          store := store[o.loc := BoolV(!unset)];
          if o.given.Some? {
            store := store[o.given.value := BoolV(true)];
          }
        case Incr =>
          var n := if o.loc in store && store[o.loc].NumV? then store[o.loc].n else 0;
          store := store[o.loc := NumV(if unset then 0 else ToInt32(n + 1))];
        case _ =>
      }
    }

    /** The negated form of an option with a value. */
    method Clear(o: Opt)
      requires TakesValue(o.kind)
      modifies this`store
      ensures store == Cleared(o, old(store))
    {
      store := store[o.loc := if o.kind == Str || o.kind == Filename then TextV(None) else NumV(0)];
    }

    method TakeText(o: Opt) returns (code: Code)
      requires Valid() && argc > 0 && o.kind in {Str, Filename}
      modifies this`at, this`argc, this`opt, this`store
      ensures Valid()
      ensures Obtained(TakeValue(o, old(opt), old(Following()), old(store)), code)
    {
      hide AllStrings, Strings;
      var arg;
      code, arg := GetArg();
      if code == Fine {
        store := store[o.loc := TextV(Some(arg))];
      }
    }

    method TakeNumber(o: Opt) returns (code: Code)
      requires Valid() && argc > 0 && TakesValue(o.kind) && o.kind !in {Str, Filename}
      modifies this`at, this`argc, this`opt, this`store
      ensures Valid()
      ensures Obtained(TakeValue(o, old(opt), old(Following()), old(store)), code)
    {
      var arg;
      hide Numbers.OptionReading, AllStrings, Strings;
      code, arg := GetArg();
      if code == Fine {
        var (n, accepted) := Numbers.OptionReading(NumberKindOf(o.kind), arg);
        store := store[o.loc := NumV(n)];
        if !accepted {
          return Bad;
        }
      }
    }

    method GetValue(o: Opt, short: bool, unset: bool) returns (code: Code)
      requires Valid() && argc > 0
      modifies this`at, this`argc, this`opt, this`store
      ensures Valid()
      ensures Obtained(Options.GetValue(o, short, unset, old(opt), old(Following()), old(store)), code)
    {
      hide TakeValue, Strings, AllStrings, Switch, Cleared, Following;
      if unset && opt.Some? {
        return Bad;
      }
      if !short && opt.Some? && o.kind in {Callback, Boolean, Incr, Bit, SetUint, SetPtr} {
        return Bad;
      }
      match o.kind {
        case Bit | Boolean | Incr | SetUint | SetPtr =>
          ApplySwitch(o, unset);
          return Fine;
        case Str | Filename =>
          if unset {
            Clear(o);
            return Fine;
          }
          code := TakeText(o);
        case Integer | UInteger | Long | U64 =>
          if unset {
            Clear(o);
            return Fine;
          }
          code := TakeNumber(o);
        case Argument | Group | Callback =>
          return Dead;
      }
    }

    /** Look up the next switch of the cluster in opt. */
    method ParseShortOpt(t: Table) returns (code: Code)
      requires Valid() && argc > 0 && opt.Some? && opt.value != ""
      modifies this`at, this`argc, this`opt, this`store
      ensures Valid()
      ensures var found := FindShort(t, old(opt).value[0], 0);
              if found.None? then
                code == NoSuch && opt == old(opt) && at == old(at) && argc == old(argc) && store == old(store)
              else
                Obtained(Options.GetValue(t[found.value], true, false, Tail(old(opt).value),
                                          old(Following()), old(store)), code)
    {
      hide Options.GetValue, Strings, AllStrings;
      var i := 0;
      while i < |t|
        invariant 0 <= i <= |t|
        invariant FindShort(t, opt.value[0], i) == FindShort(t, opt.value[0], 0)
      {
        if t[i].short == Some(opt.value[0]) {
          opt := Tail(opt.value);
          code := GetValue(t[i], true, false);
          return;
        }
        i := i + 1;
      }
      return NoSuch;
    }

    static function Tail(opt: string): Option<string>
      requires opt != ""
    {
      if |opt| > 1 then Some(opt[1..]) else None
    }

    /** Copy the current token to the write position. */
    method KeepCurrent()
      requires Valid() && argc > 0 && cpidx <= at
      modifies this`cpidx, out
      ensures Valid()
      ensures cpidx == old(cpidx) + 1 && out[..] == old(out[..])[old(cpidx) := old(out[at])]
    {
      out[cpidx] := out[at];
      cpidx := cpidx + 1;
    }

    /** The scan of the table for a long name. A value behind the name is left in opt. */
    method ScanLongNames(arg: string, t: Table) returns (sel: Selection)
      modifies this`opt
      ensures sel == SelectLong(t, arg, old(opt))
      ensures sel.Pick? ==> opt == sel.attached
      ensures sel.PickArgument? ==> opt == sel.dangling
    {
      var abbrev: Option<Candidate> := None;
      var ambiguous := false;
      var i := 0;
      while i < |t|
        invariant 0 <= i <= |t|
        invariant abbrev.Some? ==> abbrev.value.index < |t|
        invariant SelectLong(t, arg, old(opt)) == Select(t, arg, i, abbrev, ambiguous, opt)
      {
        match Consider(t[i], arg) {
          case Skip =>
          case ArgumentMisused =>
            return MisusedArgument;
          case KeepArgument =>
            return PickArgument(opt);
          case Exact(unset, v) =>
            if v.Some? {
              opt := v;
            }
            return Pick(Candidate(i, unset), opt);
          case Abbreviates(unset) =>
            ambiguous := ambiguous || abbrev.Some?;
            if !unset && Attached(arg).Some? {
              opt := Attached(arg);
            }
            abbrev := Some(Candidate(i, unset));
        }
        i := i + 1;
      }
      if ambiguous {
        return Ambiguous;
      }
      if abbrev.Some? {
        return Pick(abbrev.value, opt);
      }
      return NoMatch;
    }

    /** Scan the table for a long option; `arg` is the token without its dashes. */
    method ParseLongOpt(arg: string, t: Table) returns (code: Code)
      requires Valid() && argc > 0 && cpidx <= at && out[at] == Some("--" + arg)
      modifies this`at, this`argc, this`opt, this`store, this`cpidx, out
      ensures Valid()
      ensures match SelectLong(t, arg, old(opt)) {
                case NoMatch => code == NoSuch && Unmoved(old(cpidx)) && out[..] == old(out[..])
                case Ambiguous => code == Bad
                case MisusedArgument => code == Bad
                case PickArgument(dangling) =>
                  && code == Fine && Unmoved(old(cpidx) + 1) && opt == dangling
                  && out[..] == old(out[..])[old(cpidx) := Some("--" + arg)]
                case Pick(cand, attached) =>
                  && Obtained(Options.GetValue(t[cand.index], false, cand.unset, attached,
                                               old(Following()), old(store)), code)
                  && cpidx == old(cpidx) && out[..] == old(out[..])
              }
    {
      hide Options.GetValue, Strings, AllStrings, SelectLong;
      var sel := ScanLongNames(arg, t);
      match sel {
        case NoMatch =>
          return NoSuch;
        case Ambiguous | MisusedArgument =>
          return Bad;
        case PickArgument(_) =>
          KeepCurrent();
          return Fine;
        case Pick(cand, _) =>
          code := GetValue(t[cand.index], false, cand.unset);
      }
    }

    /** Nothing changed but the write position and opt. */
    twostate predicate Unmoved(write: nat)
      reads this
    {
      at == old(at) && argc == old(argc) && store == old(store) && cpidx == write
    }

    method CheckTypos(word: string, t: Table) returns (typo: bool)
      ensures typo <==> LooksLikeLong(t, word)
    {
      if |word| < 3 {
        return false;
      }
      if "no-" <= word {
        return true;
      }
      var i := 0;
      while i < |t|
        invariant 0 <= i <= |t|
        invariant forall k :: 0 <= k < i && t[k].long.Some? ==> !(word <= t[k].long.value)
      {
        if t[i].long.Some? && word <= t[i].long.value {
          return true;
        }
        i := i + 1;
      }
      return false;
    }

    /** A token that no option matched: keep it in argv, or give up. */
    method HandleUnknown() returns (status: Status)
      requires Valid() && argc > 0 && cpidx <= at
      modifies this`cpidx, this`opt, out
      ensures Valid()
      ensures if flags.keepUnknown then
                && status == Running && opt == None && cpidx == old(cpidx) + 1
                && out[..] == old(out[..])[old(cpidx) := old(out[at])]
              else
                status == Ended(Unknown) && cpidx == old(cpidx) && out[..] == old(out[..]) && opt == old(opt)
    {
      hide AllStrings;
      if !flags.keepUnknown {
        return Ended(Unknown);
      }
      KeepCurrent();
      opt := None;
      return Running;
    }

    method ReplaceToken(token: string)
      requires Valid() && argc > 0
      modifies out
      ensures Valid() && out[..] == old(out[..])[at := Some(token)]
    {
      out[at] := Some(token);
    }

    /** Read the next switch of the cluster in opt. */
    method ReadSwitch(t: Table) returns (r: SwitchEnd)
      requires Valid() && argc > 0 && opt.Some? && opt.value != ""
      modifies this`at, this`argc, this`opt, this`store
      ensures Valid()
      ensures r == OneSwitch(t, flags, old(opt).value, old(Following()), old(store))
      ensures match r {
                case Last(used, s) =>
                  opt == None && store == s && at == old(at) + used && argc == old(argc) - used
                case More(rest, s) =>
                  opt == Some(rest) && store == s && at == old(at) && argc == old(argc)
                case Missing =>
                  opt == old(opt) && store == old(store) && at == old(at) && argc == old(argc)
                case Broken(_) => true
              }
    {
      hide Options.GetValue, FindShort, Strings, AllStrings;
      if flags.internalHelp && opt.value[0] == 'h' {
        return Broken(Help);
      }
      var read := at;
      var code := ParseShortOpt(t);
      match code {
        case Bad => r := Broken(Misuse);
        case Dead => r := Broken(Fatal);
        case NoSuch => r := Missing;
        case Fine => r := if opt.Some? then More(opt.value, store) else Last(at - read, store);
      }
    }

    /** Read a cluster of switches up to its end or to a switch that is not in the table. */
    method ReadCluster(whole: string, t: Table) returns (r: ClusterEnd)
      requires Valid() && argc > 0 && whole != ""
      modifies this`at, this`argc, this`opt, this`store
      ensures Valid()
      ensures r == Cluster(t, flags, whole, whole, old(Following()), old(store))
      ensures r.Consumed? ==>
                opt == None && store == r.store && at == old(at) + r.used && argc == old(argc) - r.used
      ensures r.NotFound? ==>
                && opt.Some? && r.token == "-" + opt.value
                && store == r.store && at == old(at) && argc == old(argc)
    {
      hide OneSwitch, LooksLikeLong, Strings, AllStrings;
      ghost var next := Following();
      opt := Some(whole);
      var first := true;
      var used := 0;
      while opt.Some?
        invariant Valid() && argc > 0 && at == old(at) + used && argc == old(argc) - used
        invariant opt.Some? ==>
                    && used == 0 && opt.value != ""
                    && (if first then opt.value == whole else |opt.value| < |whole|)
                    && Cluster(t, flags, whole, whole, next, old(store))
                       == Cluster(t, flags, whole, opt.value, next, store)
        invariant opt.None? ==>
                    Cluster(t, flags, whole, whole, next, old(store)) == Consumed(used, store)
        decreases if opt.Some? then 1 + |opt.value| else 0
      {
        var read := ReadSwitch(t);
        match read {
          case Broken(why) =>
            return Stopped(why);
          case Missing =>
            return NotFound("-" + opt.value, store);
          case Last(n, _) =>
            used := n;
          case More(_, _) =>
            if first {
              var typo := CheckTypos(whole, t);
              if typo {
                return Stopped(Typo);
              }
            }
        }
        first := false;
      }
      return Consumed(used, store);
    }

    /** A token with one dash: a cluster of switches. */
    method StepShort(arg: string, t: Table) returns (status: Status)
      requires Valid() && argc > 0 && cpidx <= at && out[at] == Some(arg)
      requires |arg| >= 2 && arg[0] == '-'
      modifies this`at, this`argc, this`opt, this`store, this`cpidx, out
      ensures Valid()
      ensures Moved(NextShort(t, flags, arg, old(Following()), old(store)), status, old(V()), V())
    {
      hide Cluster, Strings, AllStrings, NextShort, Moved;
      ghost var (v, next) := (V(), Following());
      var whole := arg[1..];
      assert "-" + whole == arg;
      var r := ReadCluster(whole, t);
      match r {
        case Stopped(why) =>
          status := Ended(why);
          ShortStopped(t, flags, arg, next, v, V(), why);
        case NotFound(token, store') =>
          if opt.value != whole {
            // the part of the cluster that was not read becomes a token of its own
            ReplaceToken(token);
          }
          assert out[..] == v.slots[at := Some(token)];
          status := HandleUnknown();
          ShortNotFound(t, flags, arg, next, v, V(), token, store', status);
        case Consumed(used, store') =>
          status := Running;
          ShortConsumed(t, flags, arg, next, v, V(), used, store');
      }
    }

    /** A token with two dashes and a name. */
    method StepLong(arg: string, t: Table) returns (status: Status)
      requires Valid() && argc > 0 && cpidx <= at && out[at] == Some(arg)
      requires |arg| >= 2 && arg[..2] == "--"
      modifies this`at, this`argc, this`opt, this`store, this`cpidx, out
      ensures Valid()
      ensures Moved(NextLong(t, flags, arg, old(Following()), old(store), old(opt)), status, old(V()), V())
    {
      hide Options.GetValue, SelectLong, Strings, AllStrings;
      var name := arg[2..];
      assert arg == "--" + name;
      if flags.internalHelp && (name == "help-all" || name == "help") {
        return Ended(Help);
      }
      if name == "list-opts" {
        return Ended(ListOpts);
      }
      if name == "list-cmds" {
        return Ended(ListCmds);
      }
      var code := ParseLongOpt(name, t);
      match code {
        case Bad => status := Ended(Misuse);
        case Dead => status := Ended(Fatal);
        case NoSuch => status := HandleUnknown();
        case Fine => status := Running;
      }
    }

    /** A token that is no option. */
    method StepOperand(arg: string) returns (status: Status)
      requires Valid() && argc > 0 && cpidx <= at && out[at] == Some(arg)
      modifies this`cpidx, out
      ensures Valid()
      ensures Moved(if flags.stopAtNonOption then Finish(0) else Keep(arg, old(store), old(opt)), status, old(V()), V())
    {
      hide AllStrings;
      if flags.stopAtNonOption {
        return Finished;
      }
      KeepCurrent();
      return Running;
    }

    /** The two dashes that end the options. */
    method StepSeparator() returns (status: Status)
      requires Valid() && argc > 0
      modifies this`at, this`argc
      ensures Valid()
      ensures Moved(Finish(if flags.keepDashDash then 0 else 1), status, old(V()), V())
    {
      CurrentToken();
      if !flags.keepDashDash {
        argc := argc - 1;
        at := at + 1;
      }
      return Finished;
    }

    /** The loop body: one token that is not yet read. */
    method StepToken(t: Table) returns (status: Status)
      requires Valid() && argc > 0 && cpidx <= at
      modifies this`at, this`argc, this`opt, this`store, this`cpidx, out
      ensures Valid()
      ensures Moved(Next(t, flags, old(Tokens()), old(store), old(opt)), status, old(V()), V())
    {
      hide NextShort, NextLong, Strings, AllStrings, Moved;
      CurrentToken();
      var arg := out[at].value;
      if |arg| < 2 || arg[0] != '-' {
        status := StepOperand(arg);
      } else if arg[1] != '-' {
        status := StepShort(arg, t);
      } else if |arg| == 2 {
        status := StepSeparator();
      } else {
        status := StepLong(arg, t);
      }
    }

    /** One round of the loop, with its step to the next token. */
    method StepOver(t: Table, ghost was: seq<Slot>, ghost from: nat, ghost end: nat) returns (status: Status)
      requires Valid() && argc > 0 && Compacting(V(), was, from, end)
      modifies this`at, this`argc, this`opt, this`store, this`cpidx, out
      ensures Valid()
      ensures status.Running? ==> argc < old(argc)
      ensures !status.Ended? ==> Compacting(V(), was, from, end)
      ensures Carried(Next(t, flags, old(Tokens()), old(store), old(opt)), status,
                      old(V().Ahead(from)), V().Ahead(from))
    {
      hide Options.Next, Strings, AllStrings, Moved, Carried, Compacting;
      WritesBehind(V(), was, from, end);
      ghost var v := V();
      ghost var m := Next(t, flags, Tokens(), store, opt);
      status := StepToken(t);
      ghost var v' := V();
      if status.Running? {
        AfterMove(m, status, v, v', was, from, end);
        argc := argc - 1;
        at := at + 1;
        assert V() == v'.Next();
      } else if status.Finished? {
        AfterFinish(m, status, v, v', was, from, end);
      } else {
        AfterHalt(m, status, v, v', v.Ahead(from), v'.Ahead(from));
      }
    }

    /** parse_options_step: read the tokens until there are none, or the end is reached early. */
    method ParseOptionsStep(t: Table) returns (status: Status)
      requires Valid() && cpidx <= at
      modifies this`at, this`argc, this`opt, this`store, this`cpidx, out
      ensures Valid()
      ensures match Parse(t, flags, old(Tokens()), [], old(store), None) {
                case Exit(why) => status == Ended(why)
                case Done(kept, rest, s) =>
                  && status == Finished && store == s
                  && Compacting(V(), old(out[..]), old(cpidx), old(at + argc))
                  && V().Kept(old(cpidx)) == kept && Tokens() == rest
              }
    {
      hide Options.Next, Parse, ParseAhead, Carried, Strings, AllStrings, Compacting;
      opt := None;
      ghost var (was, from, end) := (out[..], cpidx, at + argc);
      StartsCompacting(V());
      ghost var whole := ParseAhead(t, flags, V().Ahead(from));
      StartsAhead(t, flags, V().Ahead(from));
      status := Running;
      while argc > 0
        invariant Valid() && Compacting(V(), was, from, end)
        invariant ParseAhead(t, flags, V().Ahead(from)) == whole
        decreases argc
      {
        ghost var p := V().Ahead(from);
        status := StepOver(t, was, from, end);
        ParseRound(t, flags, status, p, V().Ahead(from));
        if !status.Running? {
          return;
        }
      }
      status := Finished;
      NothingAhead(t, flags, V().Ahead(from));
    }

    /** parse_options_end: move the unread tokens up to the kept ones and close the list. */
    method ParseOptionsEnd() returns (count: nat)
      requires Valid() && cpidx <= at
      modifies out
      ensures count == cpidx + argc < out.Length
      ensures out[..][..count] == old(out[..][..cpidx]) + old(out[..][at..at + argc])
      ensures out[count] == None
      ensures out[..][count + 1..] == old(out[..][cpidx + argc + 1..])
    {
      CloseList(out, cpidx, at, argc);
      return cpidx + argc;
    }
  }

  lemma KeptAtStart(slots: seq<Slot>, argc: nat, keepArgv0: bool)
    requires 1 <= argc < |slots| && AllStrings(slots[..argc])
    ensures var from := if keepArgv0 then 1 else 0;
            && AllStrings(slots[..from])
            && Strings(slots[..from]) == (if keepArgv0 then Strings(slots[..1]) else [])
  {
    assert slots[..1] == [slots[..argc][0]];
  }

  /** The closed list holds what was before the write position, what was kept and the rest. */
  lemma ListIsClosed(v: View, was: seq<Slot>, from: nat, argc: nat, slots: seq<Slot>, count: nat)
    requires v.Valid() && Compacting(v, was, from, argc) && AllStrings(was[..from])
    requires count == v.cpidx + v.argc < |slots| && |slots| == |v.slots|
    requires slots[..count] == v.slots[..v.cpidx] + v.slots[v.at..v.at + v.argc]
    requires slots[count] == None && slots[count + 1..] == v.slots[count + 1..]
    ensures count <= argc < |slots| && AllStrings(slots[..count])
    ensures Strings(slots[..count]) == Strings(was[..from]) + v.Kept(from) + v.Tokens()
    ensures slots[argc..] == if count == argc then was[argc..][0 := None] else was[argc..]
  {
    hide AllStrings, Strings;
    JoinedStrings(v.slots, from, v.cpidx, v.at, v.at + v.argc);
    SameTail(slots, v.slots, was, count, argc);
  }

  lemma SameTail(slots: seq<Slot>, mid: seq<Slot>, was: seq<Slot>, count: nat, argc: nat)
    requires count <= argc < |slots| && |slots| == |mid| == |was|
    requires slots[count] == None && slots[count + 1..] == mid[count + 1..] && mid[argc..] == was[argc..]
    ensures slots[argc..] == if count == argc then was[argc..][0 := None] else was[argc..]
  {
    if count == argc {
      assert slots[argc..] == [None] + slots[argc + 1..];
      assert was[argc..][0 := None] == [None] + mid[argc..][1..];
    } else {
      assert slots[argc..] == slots[count + 1..][argc - count - 1..];
      assert mid[argc..] == mid[count + 1..][argc - count - 1..];
    }
  }

  /** parse_options: filter the options out of argv; what is left is counted and kept in argv. */
  method ParseOptions(argc: nat, argv: array<Slot>, t: Table, flags: Flags, store: Store)
    returns (status: Status, count: nat, store': Store)
    requires 1 <= argc < argv.Length && AllStrings(argv[..][..argc])
    modifies argv
    ensures if flags.keepUnknown && flags.stopAtNonOption then status == Ended(Fatal)
            else
              match Parse(t, flags, Strings(old(argv[..][1..argc])), [], store, None) {
                case Exit(why) => status == Ended(why)
                case Done(kept, rest, s) =>
                  var first := if flags.keepArgv0 then Strings(old(argv[..][..1])) else [];
                  && status == Finished && store' == s
                  && count <= argc && AllStrings(argv[..][..count]) && argv[count] == None
                  && Strings(argv[..][..count]) == first + kept + rest
                  && argv[..][argc..] == if count == argc then old(argv[..][argc..])[0 := None]
                                         else old(argv[..][argc..])
              }
  {
    hide Parse, Strings, AllStrings, Framed;
    if flags.keepUnknown && flags.stopAtNonOption {
      return Ended(Fatal), 0, store;
    }
    KeptAtStart(argv[..], argc, flags.keepArgv0);
    var ctx := new Ctx(argc, argv, flags, store);
    ghost var (was, from) := (argv[..], ctx.cpidx);
    status := ctx.ParseOptionsStep(t);
    store', count := ctx.store, 0;
    if status == Finished {
      ghost var v := ctx.V();
      count := ctx.ParseOptionsEnd();
      ListIsClosed(v, was, from, argc, argv[..], count);
    }
  }
}
