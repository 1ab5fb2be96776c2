/** How a command picks its devices from what the option parser left in argv (cmd_action). */
module CmdAction {
  import opened Machine
  import opened Options
  import opened ParseContext
  import Numbers
  import opened NumberTexts
  import opened OptionsRoundTrip
  import opened OptionsMistakes

  /** `mem` and a number in front, as sscanf sees it. */
  predicate IsMemName(name: string) {
    "mem" <= name && Numbers.ScanNumber(name[3..], 10).Number?
  }

  /** A digit, and anything behind it. */
  predicate BeginsWithDigit(s: string) {
    s != "" && '0' <= s[0] <= '9'
  }

  /** The scan of an unsigned decimal finds a number exactly behind spaces and one sign. */
  lemma NumberNeedsADigit(s: string)
    ensures var t := Numbers.SkipSpace(s);
            Numbers.ScanNumber(s, 10).Number?
            <==> BeginsWithDigit(if t != "" && t[0] in {'-', '+'} then t[1..] else t)
  {
  }

  /** A device name is `mem` and a digit, with spaces and one sign between them or not; what
      follows the digit is ignored. */
  lemma DeviceNames(name: string)
    ensures IsMemName(name) <==>
            exists spaces, sign, number ::
              && White(spaces) && sign in {"", "-", "+"} && BeginsWithDigit(number)
              && name == "mem" + (spaces + (sign + number))
  {
    hide Numbers.ScanNumber, Numbers.SkipSpace;
    if IsMemName(name) {
      var t := Numbers.SkipSpace(name[3..]);
      NumberNeedsADigit(name[3..]);
      var spaces := WhiteInFront(name[3..]);
      DigitTexts(spaces);
      var signed := t != "" && t[0] in {'-', '+'};
      var (sign, number) := if signed then ([t[0]], t[1..]) else ("", t);
      assert t == sign + number;
      assert name == "mem" + (spaces + (sign + number));
      assert signed ==> sign == "-" || sign == "+";
    }
    if spaces, sign, number :|
      && White(spaces) && sign in {"", "-", "+"} && BeginsWithDigit(number)
      && name == "mem" + (spaces + (sign + number))
    {
      assert name[3..] == spaces + (sign + number);
      assert sign + number != "" && (sign + number)[1..] == (if sign == "" then number[1..] else number);
      DigitTexts(spaces);
      WhiteIsSkipped(spaces, sign + number);
      NumberNeedsADigit(name[3..]);
    }
  }

  datatype DeviceChoice =
    | ParserExit(why: Why)
    | UsageExit
    | Devices(names: seq<string>)

  function MemNames(names: seq<string>): seq<string> {
    if names == [] then []
    else MemNames(names[..|names| - 1]) + if IsMemName(names[|names| - 1]) then [names[|names| - 1]] else []
  }

  function BadNames(names: seq<string>): nat {
    if names == [] then 0
    else BadNames(names[..|names| - 1]) + if IsMemName(names[|names| - 1]) then 0 else 1
  }

  /** The names before the first `all`. */
  function BeforeAll(names: seq<string>): (r: seq<string>)
    ensures r <= names && "all" !in r
    ensures |r| < |names| ==> names[|r|] == "all"
  {
    if names == [] || names[0] == "all" then [] else [names[0]] + BeforeAll(names[1..])
  }

  /** `all` is turned down when exactly one bad name stands before it: that one error is compared
      with the count of one that `all` leaves behind. */
  function Choose(names: seq<string>): DeviceChoice {
    if names == [] then UsageExit
    else if "all" in names then
      if BadNames(BeforeAll(names)) == 1 then UsageExit else Devices(["mem0", "mem1"])
    else if BadNames(names) == |names| then UsageExit
    else Devices(MemNames(names))
  }

  lemma {:induction false} CountsAddUp(names: seq<string>)
    ensures |MemNames(names)| + BadNames(names) == |names|
    ensures forall n :: n in MemNames(names) ==> n in names && IsMemName(n)
    ensures forall n :: n in names && IsMemName(n) ==> n in MemNames(names)
  {
    hide IsMemName;
    if names != [] {
      var front := names[..|names| - 1];
      CountsAddUp(front);
      assert names == front + [names[|names| - 1]];
    }
  }

  /** The usage message instead of an action: without `all`, exactly when no name is a device;
      with it, exactly when one bad name stands before the first `all`, no fewer and no more. */
  lemma UsageExitExactly(names: seq<string>)
    ensures "all" !in names ==> (Choose(names) == UsageExit <==> forall n :: n in names ==> !IsMemName(n))
    ensures "all" in names ==> (Choose(names) == UsageExit <==> BadNames(BeforeAll(names)) == 1)
  {
    hide IsMemName;
    CountsAddUp(names);
    if "all" !in names {
      if forall n :: n in names ==> !IsMemName(n) {
        assert MemNames(names) != [] ==> MemNames(names)[0] in MemNames(names);
      } else {
        var n :| n in names && IsMemName(n);
        assert n in MemNames(names);
      }
    }
  }

  /** `x all` gets the usage message, while `x y all` acts on every device. */
  lemma OneBadNameIsWorseThanTwo()
    ensures Choose(["x", "all"]) == UsageExit
    ensures Choose(["x", "y", "all"]) == Devices(["mem0", "mem1"])
  {
    assert !IsMemName("x") && !IsMemName("y");
    assert BadNames([]) == 0;
    assert ["x"][..0] == [] && BadNames(["x"]) == 1;
    assert ["x", "y"][..1] == ["x"] && BadNames(["x", "y"]) == 2;
    assert ["x", "all"][1..] == ["all"] && BeforeAll(["all"]) == [];
    assert BeforeAll(["x", "all"]) == ["x"];
    assert ["x", "y", "all"][1..] == ["y", "all"] && ["y", "all"][1..] == ["all"];
    assert BeforeAll(["y", "all"]) == ["y"];
    assert BeforeAll(["x", "y", "all"]) == ["x", "y"];
    assert ["x", "all"][1] == "all" && ["x", "y", "all"][2] == "all";
  }

  /** What a whole command line selects. */
  function Run(t: Table, toks: seq<string>, store: Options.Store): DeviceChoice {
    match Parse(t, DEFAULTS, toks, [], store, None)
    case Exit(why) => ParserExit(why)
    case Done(kept, rest, _) => Choose(kept + rest)
  }

  /** The positions of the device names. */
  function MemPositions(names: seq<string>): (at: seq<nat>)
    ensures forall k :: 0 <= k < |at| ==> at[k] < |names|
  {
    if names == [] then []
    else
      MemPositions(names[..|names| - 1]) + if IsMemName(names[|names| - 1]) then [|names| - 1] else []
  }

  /** d are the device names among `names`, in their order, found at the given positions. */
  ghost predicate PickedAt(names: seq<string>, d: seq<string>, at: seq<nat>) {
    && |d| == |at|
    && (forall j, k :: 0 <= j < k < |at| ==> at[j] < at[k])
    && (forall k :: 0 <= k < |at| ==> at[k] < |names| && d[k] == names[at[k]])
    && (forall i :: 0 <= i < |names| ==> (i in at <==> IsMemName(names[i])))
  }

  lemma {:induction false} PositionsOfMemNames(names: seq<string>)
    ensures PickedAt(names, MemNames(names), MemPositions(names))
  {
    hide IsMemName, PickedAt;
    if names == [] {
      NothingPicked();
    } else {
      var front := names[..|names| - 1];
      PositionsOfMemNames(front);
      assert names == front + [names[|front|]];
      PickedOneMore(front, names[|front|], MemNames(front), MemPositions(front));
      assert MemNames(front) + [] == MemNames(front) && MemPositions(front) + [] == MemPositions(front);
    }
  }

  lemma NothingPicked()
    ensures PickedAt([], [], [])
  {
  }

  lemma PickedOneMore(front: seq<string>, name: string, d: seq<string>, at: seq<nat>)
    requires PickedAt(front, d, at)
    ensures !IsMemName(name) ==> PickedAt(front + [name], d, at)
    ensures IsMemName(name) ==> PickedAt(front + [name], d + [name], at + [|front|])
  {
    hide IsMemName;
    var names := front + [name];
    assert forall i :: 0 <= i < |front| ==> names[i] == front[i];
    assert names[|front|] == name;
    assert (at + [|front|])[|at|] == |front|;
    assert forall i :: i in at + [|front|] <==> i in at || i == |front|;
  }

  /** Which devices the command acts on. Without `all` these are the device names in their order,
      each as often as it was given; with it both devices, if the names before it let it through. */
  lemma DevicesChosen(names: seq<string>)
    ensures "all" in names && BadNames(BeforeAll(names)) != 1 ==> Choose(names) == Devices(["mem0", "mem1"])
    ensures "all" !in names && (exists n :: n in names && IsMemName(n)) ==>
              exists d, at :: Choose(names) == Devices(d) && PickedAt(names, d, at)
  {
    hide IsMemName, PickedAt;
    UsageExitExactly(names);
    if "all" !in names && exists n :: n in names && IsMemName(n) {
      PositionsOfMemNames(names);
      assert Choose(names) == Devices(MemNames(names));
    }
  }

  /** Options anywhere on a command line do not change which devices it selects. */
  lemma OptionsDoNotSelect(t: Table, items: seq<Item>, tail: Option<seq<string>>, store: Options.Store)
    requires Usable(t, DEFAULTS) && AllSayable(t, DEFAULTS, items)
    ensures Run(t, RenderAll(t, DEFAULTS, items) + TailText(tail), store)
            == Choose(Positionals(items) + tail.GetOr([]))
  {
    hide Usable, AllSayable, RenderAll, TailText, Parse, Choose, EffectAll;
    RenderParse(t, DEFAULTS, items, tail, [], store);
    assert [] + Positionals(items) == Positionals(items);
  }

  /** A mistake among the options keeps every command from acting. */
  lemma MistakesSelectNothing(t: Table, items: seq<Item>, m: Mistake, more: seq<string>, store: Options.Store)
    requires Usable(t, DEFAULTS) && AllSayable(t, DEFAULTS, items) && Made(t, DEFAULTS, m)
    requires m.NoValueLong? || m.NoValueShort? ==> more == []
    ensures Run(t, RenderAll(t, DEFAULTS, items) + (Wrong(t, DEFAULTS, m) + more), store) == ParserExit(Because(m))
  {
    hide Usable, AllSayable, Made, RenderAll, Wrong, Parse;
    FirstMistakeEnds(t, DEFAULTS, items, m, more, store);
  }

  /** The first loop: count the bad names, up to the first `all`. */
  method CheckNames(argv: array<Slot>, argc: nat) returns (err: nat, foundAll: bool)
    requires argc <= argv.Length && AllStrings(argv[..][..argc])
    ensures var names := Strings(argv[..][..argc]);
            && (foundAll <==> "all" in names)
            && err == BadNames(BeforeAll(names))
  {
    hide IsMemName;
    ghost var names := Strings(argv[..][..argc]);
    err, foundAll := 0, false;
    var i := 0;
    while i < argc
      invariant 0 <= i <= argc
      invariant "all" !in names[..i] && err == BadNames(names[..i])
    {
      assert argv[..][..argc][i] == argv[i];
      var name := argv[i].value;
      assert names[..i + 1] == names[..i] + [name];
      if name == "all" {
        BeforeAllIs(names, i);
        return err, true;
      }
      if !IsMemName(name) {
        err := err + 1;
      }
      i := i + 1;
    }
    assert names[..argc] == names;
    BeforeAllIs(names, argc);
  }

  lemma {:induction false} BeforeAllIs(names: seq<string>, i: nat)
    requires i <= |names| && "all" !in names[..i] && (i < |names| ==> names[i] == "all")
    ensures BeforeAll(names) == names[..i]
  {
    if i > 0 {
      assert names[0] == names[..i][0];
      assert names[1..][..i - 1] == names[..i][1..];
      BeforeAllIs(names[1..], i - 1);
      assert names[..i] == [names[0]] + names[1..][..i - 1];
    }
  }

  /** The second loop: the devices that are opened, in their order. */
  method OpenNames(argv: array<Slot>, argc: nat) returns (chosen: seq<string>)
    requires argc <= argv.Length && AllStrings(argv[..][..argc])
    requires "all" !in Strings(argv[..][..argc])
    ensures chosen == MemNames(Strings(argv[..][..argc]))
  {
    hide IsMemName;
    ghost var names := Strings(argv[..][..argc]);
    chosen := [];
    var i := 0;
    while i < argc
      invariant 0 <= i <= argc
      invariant chosen == MemNames(names[..i])
    {
      assert argv[..][..argc][i] == argv[i];
      var name := argv[i].value;
      assert name == names[i] && names[..i + 1] == names[..i] + [name];
      if IsMemName(name) || name == "all" {
        chosen := chosen + [name];
      }
      i := i + 1;
    }
    assert names[..argc] == names;
  }

  lemma BothDevices(slots: seq<Slot>)
    requires slots == [Some("mem0"), Some("mem1")]
    ensures Strings(slots) == ["mem0", "mem1"]
    ensures MemNames(Strings(slots)) == ["mem0", "mem1"] && "all" !in Strings(slots)
  {
    hide Numbers.ScanNumber;
    Numbers.ScanDigits("0", "", 10);
    Numbers.ScanDigits("1", "", 10);
    assert "0" + "" == "0" && "1" + "" == "1";
    assert "mem0"[3..] == "0" && "mem1"[3..] == "1";
    var names := ["mem0", "mem1"];
    assert Strings(slots) == names;
    assert names[..1] == ["mem0"] && ["mem0"][..0] == [];
    assert MemNames(names[..1]) == ["mem0"];
  }

  /** The choice among the names left in argv; `all` is expanded in place. */
  method ChooseDevices(argv: array<Slot>, argc: nat) returns (r: DeviceChoice)
    requires 1 <= argc <= argv.Length && 2 <= argv.Length && AllStrings(argv[..][..argc])
    modifies argv
    ensures r == Choose(Strings(old(argv[..][..argc])))
    ensures argv[..][2..] == old(argv[..][2..])
  {
    hide IsMemName, BadNames, MemNames;
    ghost var names := Strings(argv[..][..argc]);
    var count := argc;
    var err, foundAll := CheckNames(argv, count);
    if foundAll {
      argv[0] := Some("all");
      count := 1;
    } else {
      assert names[..argc] == names;
      BeforeAllIs(names, argc);
      assert argv[0].value == names[0];
    }
    if err == count {
      return UsageExit;
    }
    if count == 1 && argv[0] == Some("all") {
      argv[0] := Some("mem0");
      argv[1] := Some("mem1");
      count := 2;
      BothDevices(argv[..][..count]);
    }
    var chosen := OpenNames(argv, count);
    return Devices(chosen);
  }

  /** The device names that the command acts on. Where `all` is expanded in place there is room
      for both names among the slots that held arguments. */
  method Dispatch(argc: nat, argv: array<Slot>, t: Table, store: Options.Store) returns (r: DeviceChoice)
    requires 1 <= argc < argv.Length && AllStrings(argv[..][..argc])
    modifies argv
    ensures r == Run(t, Strings(old(argv[..][1..argc])), store)
    ensures !r.ParserExit? ==> argv[..][argc..] == old(argv[..][argc..])
  {
    hide Parse, Choose, Strings, AllStrings;
    ghost var toks := Strings(argv[..][1..argc]);
    NoMoreThanTokens(t, DEFAULTS, toks, [], store, None);
    var status, count, _ := ParseOptions(argc, argv, t, DEFAULTS, store);
    if status.Ended? {
      return ParserExit(status.why);
    }
    ghost var parsed := Parse(t, DEFAULTS, toks, [], store, None);
    assert [] + parsed.kept + parsed.rest == parsed.kept + parsed.rest;
    if count == 0 {
      NoNames(argv[..][..count]);
      return UsageExit;
    }
    ghost var parsedSlots := argv[..];
    r := ChooseDevices(argv, count);
    FromArgc(argv[..], parsedSlots, argc);
  }

  lemma NoNames(slots: seq<Slot>)
    requires slots == []
    ensures Choose(Strings(slots)) == UsageExit
  {
  }

  lemma FromArgc(slots: seq<Slot>, was: seq<Slot>, argc: nat)
    requires 2 <= argc < |slots| && |slots| == |was| && slots[2..] == was[2..]
    ensures slots[argc..] == was[argc..]
  {
    assert slots[argc..] == slots[2..][argc - 2..];
  }

  /** The parser leaves no more strings than there are tokens. */
  lemma {:induction false} NoMoreThanTokens(t: Table, f: Flags, toks: seq<string>, kept: seq<string>,
                                            store: Options.Store, dangling: Option<string>)
    ensures var r := Parse(t, f, toks, kept, store, dangling);
            r.Done? ==> |r.kept| + |r.rest| <= |kept| + |toks|
    decreases |toks|
  {
    hide Next;
    if toks != [] {
      match Next(t, f, toks, store, dangling) {
        case Keep(token, store', dangling') =>
          NoMoreThanTokens(t, f, toks[1..], kept + [token], store', dangling');
        case Eat(used, store') =>
          NoMoreThanTokens(t, f, toks[used..], kept, store', None);
        case Finish(_) =>
        case Halt(_) =>
      }
    }
  }
}
