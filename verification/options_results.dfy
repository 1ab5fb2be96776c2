/** What becomes of the tokens of a command line. */
module OptionsResults {
  import opened Machine
  import opened Options

  /** What the parser took a token for. */
  datatype Role = Operand | OptionToken | OptionValue | Separator

  function Roles(t: Table, f: Flags, toks: seq<string>, s: Store, dangling: Option<string>): seq<Role>
    decreases |toks|
  {
    if toks == [] then []
    else
      match Next(t, f, toks, s, dangling)
      case Keep(_, s', dangling') => [Operand] + Roles(t, f, toks[1..], s', dangling')
      case Eat(used, s') =>
        (if used == 1 then [OptionToken] else [OptionToken, OptionValue]) + Roles(t, f, toks[used..], s', None)
      case Finish(dropped) =>
        (if dropped == 1 then [Separator] else []) + seq(|toks| - dropped, i => Operand)
      case Halt(_) => []
  }

  /** The tokens with the given role. */
  function WithRole(toks: seq<string>, roles: seq<Role>, r: Role): seq<string>
    requires |toks| == |roles|
  {
    if toks == [] then []
    else (if roles[0] == r then [toks[0]] else []) + WithRole(toks[1..], roles[1..], r)
  }

  lemma {:induction false} WithRoleOfAll(toks: seq<string>, roles: seq<Role>)
    requires |toks| == |roles| && forall i :: 0 <= i < |roles| ==> roles[i] == Operand
    ensures WithRole(toks, roles, Operand) == toks
  {
    if toks != [] {
      WithRoleOfAll(toks[1..], roles[1..]);
    }
  }

  /** A value comes right after its option, and after the separator there are only operands. */
  ghost predicate WellAssigned(toks: seq<string>, roles: seq<Role>, afterOption: bool) {
    && |toks| == |roles|
    && (toks == [] ||
        match roles[0]
        case Operand => WellAssigned(toks[1..], roles[1..], false)
        case OptionToken => !IsOperand(toks[0]) && WellAssigned(toks[1..], roles[1..], true)
        case OptionValue => afterOption && WellAssigned(toks[1..], roles[1..], false)
        case Separator => toks[0] == "--" && forall i :: 0 < i < |roles| ==> roles[i] == Operand)
  }

  lemma PrependRole(toks: seq<string>, roles: seq<Role>, r: Role, afterOption: bool)
    requires toks != [] && r != Separator
    requires WellAssigned(toks[1..], roles, r == OptionToken)
    requires r == OptionToken ==> !IsOperand(toks[0])
    requires r == OptionValue ==> afterOption
    ensures WellAssigned(toks, [r] + roles, afterOption)
    ensures WithRole(toks, [r] + roles, Operand)
            == (if r == Operand then [toks[0]] else []) + WithRole(toks[1..], roles, Operand)
  {
    assert ([r] + roles)[1..] == roles;
  }

  lemma AfterAnOption(toks: seq<string>, roles: seq<Role>)
    requires WellAssigned(toks, roles, false)
    ensures WellAssigned(toks, roles, true)
  {
  }

  lemma OptionRoles(toks: seq<string>, used: nat, roles: seq<Role>)
    requires 1 <= used <= 2 && used <= |toks| && !IsOperand(toks[0])
    requires WellAssigned(toks[used..], roles, false)
    ensures var all := (if used == 1 then [OptionToken] else [OptionToken, OptionValue]) + roles;
            && WellAssigned(toks, all, false)
            && WithRole(toks, all, Operand) == WithRole(toks[used..], roles, Operand)
  {
    hide WellAssigned, WithRole, IsOperand;
    WellAssignedLength(toks[used..], roles);
    if used == 1 {
      AfterAnOption(toks[1..], roles);
      PrependRole(toks, roles, OptionToken, false);
    } else {
      assert toks[1..][1..] == toks[2..];
      PrependRole(toks[1..], roles, OptionValue, true);
      PrependRole(toks, [OptionValue] + roles, OptionToken, false);
      assert [OptionToken] + ([OptionValue] + roles) == [OptionToken, OptionValue] + roles;
    }
  }

  lemma WellAssignedLength(toks: seq<string>, roles: seq<Role>)
    requires WellAssigned(toks, roles, false)
    ensures |toks| == |roles|
  {
  }

  // ----- what is left of an operand

  /** A token as it was given or, only where unknown options are kept, a dash and what a cluster
      had left at its first unknown switch. */
  predicate LeftOf(f: Flags, token: string, left: string) {
    || left == token
    || (f.keepUnknown && 2 <= |left| < |token| && token[0] == '-' && token[1] != '-'
        && left == "-" + token[|token| - |left| + 1..])
  }

  /** Each operand is left, in its place. */
  predicate AllLeft(f: Flags, operands: seq<string>, left: seq<string>) {
    |left| == |operands| && forall i :: 0 <= i < |operands| ==> LeftOf(f, operands[i], left[i])
  }

  /** The cluster begins with a switch that is understood, and goes on. */
  predicate BeginsWithSwitch(t: Table, f: Flags, token: string, next: seq<string>, s: Store) {
    |token| >= 2 && token[0] == '-' && token[1] != '-' && OneSwitch(t, f, token[1..], next, s).More?
  }

  /** No token that is kept is a cluster that begins with a known switch. */
  predicate NothingBroken(t: Table, f: Flags, toks: seq<string>, s: Store, dangling: Option<string>)
    decreases |toks|
  {
    toks == [] ||
    match Next(t, f, toks, s, dangling)
    case Keep(_, s', dangling') =>
      !BeginsWithSwitch(t, f, toks[0], toks[1..], s) && NothingBroken(t, f, toks[1..], s', dangling')
    case Eat(used, s') => NothingBroken(t, f, toks[used..], s', None)
    case Finish(_) => true
    case Halt(_) => true
  }

  /** An unread end of a cluster is shorter by each switch that was read. */
  lemma {:induction false} UnreadEnd(t: Table, f: Flags, whole: string, opt: string, next: seq<string>, s: Store)
    requires opt != "" && |opt| <= |whole| && opt == whole[|whole| - |opt|..]
    ensures var r := Cluster(t, f, whole, opt, next, s);
            r.NotFound? ==>
              && 2 <= |r.token| <= |opt| + 1
              && r.token == "-" + whole[|whole| - |r.token| + 1..]
              && (|r.token| == |opt| + 1 <==> !OneSwitch(t, f, opt, next, s).More?)
    decreases |opt|
  {
    hide OneSwitch, LooksLikeLong;
    var r := OneSwitch(t, f, opt, next, s);
    if r.More? {
      UnreadEnd(t, f, whole, opt[1..], next, r.store);
    }
  }

  lemma CutOff(f: Flags, arg: string, token: string)
    requires |arg| >= 2 && arg[0] == '-' && arg[1] != '-'
    requires 2 <= |token| <= |arg| && token == "-" + arg[1..][|arg| - |token|..]
    ensures f.keepUnknown ==> LeftOf(f, arg, token)
    ensures token == arg <==> |token| == |arg|
  {
    assert arg == "-" + arg[1..];
    assert arg[1..][|arg| - |token|..] == arg[|arg| - |token| + 1..];
  }

  /** What a token with one dash can become. */
  lemma ShortShape(t: Table, f: Flags, arg: string, next: seq<string>, s: Store)
    requires |arg| >= 2 && arg[0] == '-' && arg[1] != '-'
    ensures var m := NextShort(t, f, arg, next, s);
            m.Keep? ==> LeftOf(f, arg, m.token) && (m.token == arg <==> !BeginsWithSwitch(t, f, arg, next, s))
  {
    hide OneSwitch, Cluster, LeftOf;
    UnreadEnd(t, f, arg[1..], arg[1..], next, s);
    var r := Cluster(t, f, arg[1..], arg[1..], next, s);
    if r.NotFound? {
      CutOff(f, arg, r.token);
    }
  }

  /** What one token can become. */
  lemma MoveShape(t: Table, f: Flags, toks: seq<string>, s: Store, dangling: Option<string>)
    requires toks != []
    ensures var m := Next(t, f, toks, s, dangling);
            && (m.Keep? ==> LeftOf(f, toks[0], m.token)
                            && (m.token == toks[0] <==> !BeginsWithSwitch(t, f, toks[0], toks[1..], s)))
            && (m.Eat? ==> !IsOperand(toks[0]))
            && (m.Finish? && m.dropped == 1 ==> toks[0] == "--")
  {
    hide NextShort, OneSwitch, SelectLong, Reserved, GetValue;
    if !IsOperand(toks[0]) && toks[0][1] != '-' {
      ShortShape(t, f, toks[0], toks[1..], s);
    }
  }

  lemma LeftAndMore(f: Flags, operands: seq<string>, left: seq<string>, token: string, kept: string)
    requires AllLeft(f, operands, left) && LeftOf(f, token, kept)
    ensures AllLeft(f, [token] + operands, [kept] + left)
    ensures [kept] + left == [token] + operands <==> kept == token && left == operands
  {
    hide LeftOf;
    assert ([kept] + left)[0] == kept && ([kept] + left)[1..] == left;
    assert ([token] + operands)[0] == token && ([token] + operands)[1..] == operands;
  }

  /** Every token has exactly one role. What `argv` holds behind `kept` are the operands in their
      order, or what is left of them; `whole` tells whether all are as they were given. */
  ghost predicate Accounts(f: Flags, toks: seq<string>, roles: seq<Role>, kept: seq<string>, argv: seq<string>,
                           whole: bool)
  {
    && |roles| == |toks|
    && WellAssigned(toks, roles, false)
    && kept <= argv
    && var (operands, left) := (WithRole(toks, roles, Operand), argv[|kept|..]);
       && AllLeft(f, operands, left)
       && (left == operands <==> whole)
       && (!f.keepUnknown ==> left == operands)
  }

  lemma AccountsKeep(f: Flags, toks: seq<string>, roles: seq<Role>, kept: seq<string>, token: string,
                     argv: seq<string>, whole: bool)
    requires toks != [] && LeftOf(f, toks[0], token)
    requires Accounts(f, toks[1..], roles, kept + [token], argv, whole)
    ensures Accounts(f, toks, [Operand] + roles, kept, argv, whole && token == toks[0])
  {
    hide WellAssigned, WithRole, IsOperand, LeftOf, AllLeft;
    PrependRole(toks, roles, Operand, false);
    OneMoreKept(kept, token, argv);
    LeftAndMore(f, WithRole(toks[1..], roles, Operand), argv[|kept| + 1..], toks[0], token);
    KeptUnchanged(f, WithRole(toks, [Operand] + roles, Operand), argv[|kept|..]);
  }

  lemma AccountsEat(f: Flags, toks: seq<string>, used: nat, roles: seq<Role>, kept: seq<string>,
                    argv: seq<string>, whole: bool)
    requires 1 <= used <= 2 && used <= |toks| && !IsOperand(toks[0])
    requires Accounts(f, toks[used..], roles, kept, argv, whole)
    ensures var all := (if used == 1 then [OptionToken] else [OptionToken, OptionValue]) + roles;
            Accounts(f, toks, all, kept, argv, whole)
  {
    hide WellAssigned, WithRole, IsOperand, AllLeft;
    OptionRoles(toks, used, roles);
  }

  lemma AccountsFinish(f: Flags, toks: seq<string>, dropped: nat, kept: seq<string>)
    requires toks != [] && dropped <= 1 && (dropped == 1 ==> toks[0] == "--")
    ensures var roles := (if dropped == 1 then [Separator] else []) + seq(|toks| - dropped, i => Operand);
            Accounts(f, toks, roles, kept, kept + toks[dropped..], true)
  {
    hide WellAssigned, WithRole, AllLeft;
    LastTokens(f, toks, dropped);
    assert (kept + toks[dropped..])[|kept|..] == toks[dropped..];
  }

  lemma NoTokens(f: Flags, kept: seq<string>)
    ensures Accounts(f, [], [], kept, kept + [], true)
  {
  }

  /** When parsing succeeds, every token is accounted for. Every operand is left as it was given
      exactly when none is a cluster that begins with a known switch. */
  lemma {:induction false} TokensAreAccountedFor(t: Table, f: Flags, toks: seq<string>, kept: seq<string>,
                                                 s: Store, dangling: Option<string>)
    requires Parse(t, f, toks, kept, s, dangling).Done?
    ensures var r := Parse(t, f, toks, kept, s, dangling);
            Accounts(f, toks, Roles(t, f, toks, s, dangling), kept, r.kept + r.rest,
                     NothingBroken(t, f, toks, s, dangling))
    decreases |toks|
  {
    hide Accounts, Next, IsOperand, LeftOf, BeginsWithSwitch;
    if toks == [] {
      NoTokens(f, kept);
    } else {
      MoveShape(t, f, toks, s, dangling);
      var r := Parse(t, f, toks, kept, s, dangling);
      match Next(t, f, toks, s, dangling) {
        case Keep(token, s', dangling') =>
          TokensAreAccountedFor(t, f, toks[1..], kept + [token], s', dangling');
          AccountsKeep(f, toks, Roles(t, f, toks[1..], s', dangling'), kept, token, r.kept + r.rest,
                       NothingBroken(t, f, toks[1..], s', dangling'));
        case Eat(used, s') =>
          TokensAreAccountedFor(t, f, toks[used..], kept, s', None);
          AccountsEat(f, toks, used, Roles(t, f, toks[used..], s', None), kept, r.kept + r.rest,
                      NothingBroken(t, f, toks[used..], s', None));
        case Finish(dropped) =>
          AccountsFinish(f, toks, dropped, kept);
        case Halt(_) =>
      }
    }
  }

  lemma OneMoreKept(kept: seq<string>, token: string, argv: seq<string>)
    requires kept + [token] <= argv
    ensures kept <= argv && argv[|kept|..] == [token] + argv[|kept| + 1..]
  {
    assert argv[|kept|] == (kept + [token])[|kept|];
  }

  /** With KEEP_UNKNOWN and a switch x, `-xq` sets x and leaves `-q`. */
  lemma KnownSwitchIsCutOff(loc: nat, s: Store)
    ensures var x := Opt(Boolean, Some('x'), None, loc, None);
            var f := Flags(false, false, false, true, true);
            && Parse([x], f, ["-xq"], [], s, None) == Done(["-q"], [], s[loc := BoolV(true)])
            && Roles([x], f, ["-xq"], s, None) == [Operand]
  {
    var x := Opt(Boolean, Some('x'), None, loc, None);
    var f := Flags(false, false, false, true, true);
    var s' := s[loc := BoolV(true)];
    assert "-xq"[1..] == "xq" && "xq"[1..] == "q";
    assert FindShort([x], 'x', 0) == Some(0);
    assert FindShort([x], 'q', 0) == FindShort([x], 'q', 1) == None;
    assert OneSwitch([x], f, "xq", [], s) == More("q", s');
    assert Cluster([x], f, "xq", "xq", [], s) == Cluster([x], f, "xq", "q", [], s') == NotFound("-q", s');
    assert Next([x], f, ["-xq"], s, None) == Keep("-q", s', None);
    assert [] + ["-q"] == ["-q"];
    assert Parse([x], f, [], ["-q"], s', None) == Done(["-q"], [], s');
  }

  lemma KeptUnchanged(f: Flags, operands: seq<string>, left: seq<string>)
    requires AllLeft(f, operands, left)
    ensures !f.keepUnknown ==> left == operands
  {
  }

  lemma LastTokens(f: Flags, toks: seq<string>, dropped: nat)
    requires toks != [] && dropped <= 1 && (dropped == 1 ==> toks[0] == "--")
    ensures var roles := (if dropped == 1 then [Separator] else []) + seq(|toks| - dropped, i => Operand);
            && |roles| == |toks|
            && WellAssigned(toks, roles, false)
            && WithRole(toks, roles, Operand) == toks[dropped..]
            && AllLeft(f, toks[dropped..], toks[dropped..])
  {
    var tail := seq(|toks| - dropped, i => Operand);
    WithRoleOfAll(toks[dropped..], tail);
    if dropped == 1 {
      assert ([Separator] + tail)[1..] == tail;
    } else {
      assert [] + tail == tail;
      assert toks[0..] == toks;
      AllOperands(toks, tail);
    }
  }

  lemma {:induction false} AllOperands(toks: seq<string>, roles: seq<Role>)
    requires |toks| == |roles| && forall i :: 0 <= i < |roles| ==> roles[i] == Operand
    ensures WellAssigned(toks, roles, false)
  {
    if toks != [] {
      AllOperands(toks[1..], roles[1..]);
    }
  }

  function LendingTable(loc: nat): Table {
    [Opt(Boolean, None, Some("ab"), 0, None), Opt(Argument, None, Some("a=b"), 0, None),
     Opt(Str, None, Some("x"), loc, None)]
  }

  lemma KeptWithLeftOver(loc: nat, more: seq<string>, s: Store)
    ensures Next(LendingTable(loc), DEFAULTS, ["--a=b"] + more, s, None) == Keep("--a=b", s, Some("b"))
  {
    var t := LendingTable(loc);
    var arg := "a=b";
    assert StemLength(arg[1..]) == 0 && StemLength(arg) == 1;
    assert arg[2..] == "b" && arg[..1] == "a" && "ab"[..1] == "a" && "ab"[1] != arg[1];
    assert Consider(t[0], arg) == Abbreviates(false) && Consider(t[1], arg) == KeepArgument;
    assert Select(t, arg, 1, Some(Candidate(0, false)), false, Some("b")) == PickArgument(Some("b"));
    assert SelectLong(t, arg, None) == PickArgument(Some("b"));
    assert "--a=b"[2..] == arg && (["--a=b"] + more)[0] == "--a=b";
  }

  lemma TakesLeftOver(loc: nat, more: seq<string>, s: Store, dangling: Option<string>)
    requires dangling.Some? || more != []
    ensures Next(LendingTable(loc), DEFAULTS, ["--x"] + more, s, dangling)
            == if dangling.Some? then Eat(1, s[loc := TextV(dangling)]) else Eat(2, s[loc := TextV(Some(more[0]))])
  {
    var t := LendingTable(loc);
    assert StemLength("x"[1..]) == 0 && StemLength("x") == 1 && "x"[..1] == "x";
    assert "ab"[0] != "x"[0] && "a=b"[0] != "x"[0] && "no-"[0] != "x"[0];
    assert Consider(t[0], "x") == Skip && Consider(t[1], "x") == Skip && Consider(t[2], "x") == Exact(false, None);
    assert Select(t, "x", 2, None, false, dangling) == Pick(Candidate(2, false), dangling);
    assert Select(t, "x", 1, None, false, dangling) == Pick(Candidate(2, false), dangling);
    var toks := ["--x"] + more;
    assert toks[0] == "--x" && "--x"[2..] == "x" && toks[1..] == more;
  }

  /** A plain argument with `=` in its name lets the value of a stem reach the next long option, also
      past an operand, and only the next: here `--a=b` and `w` are kept, the first `--x` takes the
      value b, and the second one the token v. */
  lemma LeftOverReachesNext(loc: nat, s: Store)
    ensures var (t, s') := (LendingTable(loc), s[loc := TextV(Some("b"))]);
            && Parse(t, DEFAULTS, ["--a=b", "w", "--x"], [], s, None) == Done(["--a=b", "w"], [], s')
            && Parse(t, DEFAULTS, ["--a=b", "w", "--x", "--x", "v"], [], s, None)
               == Done(["--a=b", "w"], [], s[loc := TextV(Some("v"))])
  {
    hide Next, LendingTable;
    var (t, s') := (LendingTable(loc), s[loc := TextV(Some("b"))]);
    ReadsLeftOver(loc, s, []);
    ReadsLeftOver(loc, s, ["--x", "v"]);
    TakesLeftOver(loc, ["v"], s', None);
    assert ["--a=b", "w", "--x"] + [] == ["--a=b", "w", "--x"];
    assert ["--a=b", "w", "--x"] + ["--x", "v"] == ["--a=b", "w", "--x", "--x", "v"];
    assert ["--x"] + ["v"] == ["--x", "v"] && ["--x", "v"][2..] == [];
    assert s'[loc := TextV(Some("v"))] == s[loc := TextV(Some("v"))];
  }

  lemma ReadsLeftOver(loc: nat, s: Store, more: seq<string>)
    ensures var t := LendingTable(loc);
            Parse(t, DEFAULTS, ["--a=b", "w", "--x"] + more, [], s, None)
            == Parse(t, DEFAULTS, more, ["--a=b", "w"], s[loc := TextV(Some("b"))], None)
  {
    hide Next, LendingTable;
    var t := LendingTable(loc);
    var (rest2, rest1) := (["--x"] + more, ["w", "--x"] + more);
    assert ["--a=b", "w", "--x"] + more == ["--a=b"] + rest1 && (["--a=b"] + rest1)[1..] == rest1;
    assert rest1[1..] == rest2 && rest2[1..] == more && rest1[0] == "w";
    KeptWithLeftOver(loc, rest1, s);
    OperandPasses(t, rest1, s, Some("b"));
    TakesLeftOver(loc, more, s, Some("b"));
    assert [] + ["--a=b"] == ["--a=b"] && ["--a=b"] + ["w"] == ["--a=b", "w"];
    assert Parse(t, DEFAULTS, ["--a=b"] + rest1, [], s, None) == Parse(t, DEFAULTS, rest1, ["--a=b"], s, Some("b"));
    assert Parse(t, DEFAULTS, rest1, ["--a=b"], s, Some("b"))
        == Parse(t, DEFAULTS, rest2, ["--a=b", "w"], s, Some("b"));
  }

  lemma OperandPasses(t: Table, toks: seq<string>, s: Store, dangling: Option<string>)
    requires toks != [] && toks[0] == "w"
    ensures Next(t, DEFAULTS, toks, s, dangling) == Keep("w", s, dangling)
  {
  }

  // ----- the short name h

  /** The same table without the short name h. */
  function WithoutShortH(t: Table): (t': Table)
    ensures |t'| == |t|
  {
    seq(|t|, i requires 0 <= i < |t| => if t[i].short == Some('h') then t[i].(short := None) else t[i])
  }

  lemma {:induction false} FindOtherShort(t: Table, c: char, i: nat)
    requires i <= |t| && c != 'h'
    ensures FindShort(WithoutShortH(t), c, i) == FindShort(t, c, i)
    decreases |t| - i
  {
    if i < |t| {
      FindOtherShort(t, c, i + 1);
    }
  }

  lemma ConsiderIgnoresShort(t: Table, i: nat, arg: string)
    requires i < |t|
    ensures Consider(WithoutShortH(t)[i], arg) == Consider(t[i], arg)
  {
  }

  lemma {:induction false} SelectIgnoresShort(t: Table, arg: string, i: nat, abbrev: Option<Candidate>,
                                              ambiguous: bool, attached: Option<string>)
    requires i <= |t| && (abbrev.Some? ==> abbrev.value.index < |t|)
    ensures Select(WithoutShortH(t), arg, i, abbrev, ambiguous, attached)
            == Select(t, arg, i, abbrev, ambiguous, attached)
    decreases |t| - i
  {
    hide Consider, WithoutShortH, Attached;
    if i < |t| {
      ConsiderIgnoresShort(t, i, arg);
      match Consider(t[i], arg) {
        case Skip =>
          SelectIgnoresShort(t, arg, i + 1, abbrev, ambiguous, attached);
        case Abbreviates(unset) =>
          SelectIgnoresShort(t, arg, i + 1, Some(Candidate(i, unset)), ambiguous || abbrev.Some?,
                             if !unset && Attached(arg).Some? then Attached(arg) else attached);
        case _ =>
      }
    }
  }

  lemma ValueIgnoresShort(t: Table, i: nat, short: bool, unset: bool, attached: Option<string>,
                          next: seq<string>, s: Store)
    requires i < |t|
    ensures GetValue(WithoutShortH(t)[i], short, unset, attached, next, s)
            == GetValue(t[i], short, unset, attached, next, s)
  {
  }

  lemma TypoIgnoresShort(t: Table, word: string)
    ensures LooksLikeLong(WithoutShortH(t), word) == LooksLikeLong(t, word)
  {
    var t' := WithoutShortH(t);
    assert forall i :: 0 <= i < |t| ==> t'[i].long == t[i].long;
  }

  lemma {:induction false} ClusterIgnoresH(t: Table, f: Flags, whole: string, opt: string, next: seq<string>, s: Store)
    requires opt != "" && f.internalHelp
    ensures Cluster(WithoutShortH(t), f, whole, opt, next, s) == Cluster(t, f, whole, opt, next, s)
    decreases |opt|
  {
    if opt[0] != 'h' {
      FindOtherShort(t, opt[0], 0);
      var found := FindShort(t, opt[0], 0);
      if found.Some? {
        ValueIgnoresShort(t, found.value, true, false, if |opt| > 1 then Some(opt[1..]) else None, next, s);
      }
      TypoIgnoresShort(t, whole);
      assert OneSwitch(WithoutShortH(t), f, opt, next, s) == OneSwitch(t, f, opt, next, s);
      hide OneSwitch, WithoutShortH, GetValue;
      var r := OneSwitch(t, f, opt, next, s);
      if r.More? {
        ClusterIgnoresH(t, f, whole, r.rest, next, r.store);
      }
    }
  }

  lemma ShortIgnoresH(t: Table, f: Flags, arg: string, next: seq<string>, s: Store)
    requires |arg| >= 2 && f.internalHelp
    ensures NextShort(WithoutShortH(t), f, arg, next, s) == NextShort(t, f, arg, next, s)
  {
    hide WithoutShortH, Cluster;
    ClusterIgnoresH(t, f, arg[1..], arg[1..], next, s);
  }

  lemma LongIgnoresShort(t: Table, f: Flags, arg: string, next: seq<string>, s: Store, dangling: Option<string>)
    requires |arg| >= 2
    ensures NextLong(WithoutShortH(t), f, arg, next, s, dangling) == NextLong(t, f, arg, next, s, dangling)
  {
    hide WithoutShortH, GetValue, Reserved;
    SelectIgnoresShort(t, arg[2..], 0, None, false, dangling);
    var sel := SelectLong(t, arg[2..], dangling);
    if sel.Pick? {
      ValueIgnoresShort(t, sel.cand.index, false, sel.cand.unset, sel.attached, next, s);
    }
  }

  lemma NextIgnoresH(t: Table, f: Flags, toks: seq<string>, s: Store, dangling: Option<string>)
    requires toks != [] && f.internalHelp
    ensures Next(WithoutShortH(t), f, toks, s, dangling) == Next(t, f, toks, s, dangling)
  {
    hide WithoutShortH, NextShort, NextLong;
    if |toks[0]| >= 2 {
      ShortIgnoresH(t, f, toks[0], toks[1..], s);
      LongIgnoresShort(t, f, toks[0], toks[1..], s, dangling);
    }
  }

  /** With internal help, the parser behaves as if no option had the short name h. */
  lemma {:induction false} ShortHIsNeverUsed(t: Table, f: Flags, toks: seq<string>, kept: seq<string>, s: Store,
                                             dangling: Option<string>)
    requires f.internalHelp
    ensures Parse(WithoutShortH(t), f, toks, kept, s, dangling) == Parse(t, f, toks, kept, s, dangling)
    decreases |toks|
  {
    hide WithoutShortH, Next;
    if toks != [] {
      NextIgnoresH(t, f, toks, s, dangling);
      match Next(t, f, toks, s, dangling) {
        case Keep(token, s', dangling') => ShortHIsNeverUsed(t, f, toks[1..], kept + [token], s', dangling');
        case Eat(used, s') => ShortHIsNeverUsed(t, f, toks[used..], kept, s', None);
        case Finish(_) =>
        case Halt(_) =>
      }
    }
  }

  /** The table of hpa-to-dpa, whose one option is `-h, --hpa`. */
  function HpaTable(loc: nat): Table {
    [Opt(U64, Some('h'), Some("hpa"), loc, None)]
  }

  /** So the address can only be given by the long name: without a token that starts with two
      dashes and goes on, a parse that succeeds leaves the address alone and keeps every token. */
  lemma {:induction false} HpaNeedsItsLongName(loc: nat, toks: seq<string>, kept: seq<string>, s: Store,
                                               dangling: Option<string>)
    requires forall i :: 0 <= i < |toks| ==> !("--" <= toks[i])
    requires Parse(HpaTable(loc), DEFAULTS, toks, kept, s, dangling).Done?
    ensures Parse(HpaTable(loc), DEFAULTS, toks, kept, s, dangling) == Done(kept + toks, [], s)
    decreases |toks|
  {
    if toks == [] {
      assert kept + [] == kept;
    } else {
      var arg := toks[0];
      if !IsOperand(arg) {
        assert arg[..2] == [arg[0], arg[1]];
        assert FindShort(HpaTable(loc), arg[1], 1) == None;
        assert Cluster(HpaTable(loc), DEFAULTS, arg[1..], arg[1..], toks[1..], s).Stopped?
            || Cluster(HpaTable(loc), DEFAULTS, arg[1..], arg[1..], toks[1..], s).NotFound?;
      }
      HpaNeedsItsLongName(loc, toks[1..], kept + [arg], s, dangling);
      assert kept + [arg] + toks[1..] == kept + toks;
    }
  }
}
