/** The mistakes on a command line, and how each of them ends the program. */
module OptionsMistakes {
  import opened Machine
  import opened Options
  import opened OptionsLookup
  import opened OptionsRoundTrip
  import NumberTexts

  /** Something wrong to say. `letters` are known switches in front of it in the same cluster. */
  datatype Mistake =
    | UnknownName(name: string)
    | AmbiguousStem(name: string)
    | AskForHelp(name: string)
    | AskForOptions
    | AskForCommands
    | ValueForSwitch(i: nat, v: string)
    | ValueForNegation(i: nat, v: string)
    | NoValueLong(i: nat)
    | NoValueShort(i: nat)
    | BadValueEq(i: nat, v: string)
    | BadValueSep(i: nat, v: string)
    | BadValueShort(i: nat, v: string)
    | ValueForArgument(i: nat, v: string)
    | NoKnownKind(i: nat)
    | NoKnownShort(i: nat)
    | UnknownLetter(letters: seq<nat>, c: char, rest: string)
    | LetterForHelp(letters: seq<nat>, rest: string)
    | OneDashTooFew(i: nat, rest: string)

  predicate IsNumber(k: Kind) {
    k in {Integer, UInteger, Long, U64}
  }

  /** The names that are taken by the parser itself. */
  predicate ReservedName(f: Flags, name: string) {
    name in {"list-opts", "list-cmds"} || (f.internalHelp && name in {"help", "help-all"})
  }

  /** The word is the beginning of a long option, or of a negation, with one dash too few. */
  ghost predicate LongWord(t: Table, word: string) {
    || (exists rest :: word == "no-" + rest)
    || (|word| >= 3 && exists i: nat, rest :: i < |t| && t[i].long == Some(word + rest))
  }

  ghost predicate BadValue(t: Table, i: nat, v: string) {
    i < |t| && IsNumber(t[i].kind) && !NumberTexts.Numeric(NumberKindOf(t[i].kind), v)
  }

  /** When each of these is a mistake. */
  ghost predicate Made(t: Table, f: Flags, m: Mistake) {
    match m
    case UnknownName(name) =>
      && name != "" && !ReservedName(f, name) && !f.keepUnknown
      && NoMatches(t, name) && forall i: nat :: !StemAt(t, i, name)
    case AmbiguousStem(name) =>
      name != "" && !ReservedName(f, name) && NoMatches(t, name) && SeveralStems(t, name)
    case AskForHelp(name) => f.internalHelp && name in {"help", "help-all"}
    case AskForOptions => true
    case AskForCommands => true
    case ValueForSwitch(i, _) => HasLong(t, i) && (IsSwitch(t[i].kind) || t[i].kind == Callback)
    case ValueForNegation(i, _) =>
      HasLong(t, i) && (IsSwitch(t[i].kind) || TakesValue(t[i].kind)) && !Repeating(t[i].long.value)
    case NoValueLong(i) => HasLong(t, i) && TakesValue(t[i].kind)
    case NoValueShort(i) => HasShort(t, i) && TakesValue(t[i].kind)
    case BadValueEq(i, v) => HasLong(t, i) && BadValue(t, i, v)
    case BadValueSep(i, v) => HasLong(t, i) && BadValue(t, i, v)
    case BadValueShort(i, v) => HasShort(t, i) && BadValue(t, i, v) && v != ""
    case ValueForArgument(i, _) => HasLong(t, i) && t[i].kind == Argument
    case NoKnownKind(i) => HasLong(t, i) && t[i].kind in {Callback, Group}
    case NoKnownShort(i) => HasShort(t, i) && t[i].kind in {Callback, Group, Argument}
    case UnknownLetter(letters, c, rest) =>
      && AllShortSwitches(t, letters) && !f.keepUnknown && !(f.internalHelp && c == 'h')
      && (letters == [] ==> c != '-')
      && (forall k :: 0 <= k < |t| ==> t[k].short != Some(c))
      && (letters != [] ==> !LongWord(t, ShortText(t, letters) + ([c] + rest)))
    case LetterForHelp(letters, rest) =>
      && AllShortSwitches(t, letters) && f.internalHelp
      && (letters != [] ==> !LongWord(t, ShortText(t, letters) + ("h" + rest)))
    case OneDashTooFew(i, rest) => IsShortSwitch(t, i) && rest != "" && LongWord(t, [t[i].short.value] + rest)
  }

  /** How it looks on the command line. */
  ghost function Wrong(t: Table, f: Flags, m: Mistake): seq<string>
    requires Made(t, f, m)
  {
    match m
    case UnknownName(name) => ["--" + name]
    case AmbiguousStem(name) => ["--" + name]
    case AskForHelp(name) => ["--" + name]
    case AskForOptions => ["--list-opts"]
    case AskForCommands => ["--list-cmds"]
    case ValueForSwitch(i, v) => ["--" + (t[i].long.value + ("=" + v))]
    case ValueForNegation(i, v) => ["--" + (("no-" + t[i].long.value) + ("=" + v))]
    case NoValueLong(i) => ["--" + t[i].long.value]
    case NoValueShort(i) => ["-" + [t[i].short.value]]
    case BadValueEq(i, v) => ["--" + (t[i].long.value + ("=" + v))]
    case BadValueSep(i, v) => ["--" + t[i].long.value, v]
    case BadValueShort(i, v) => ["-" + ([t[i].short.value] + v)]
    case ValueForArgument(i, v) => ["--" + (t[i].long.value + ("=" + v))]
    case NoKnownKind(i) => ["--" + t[i].long.value]
    case NoKnownShort(i) => ["-" + [t[i].short.value]]
    case UnknownLetter(letters, c, rest) => ["-" + (ShortText(t, letters) + ([c] + rest))]
    case LetterForHelp(letters, rest) => ["-" + (ShortText(t, letters) + ("h" + rest))]
    case OneDashTooFew(i, rest) => ["-" + ([t[i].short.value] + rest)]
  }

  /** What ends the program. Where a value is missing, nothing may follow that could be one. */
  function Because(m: Mistake): Why {
    match m
    case UnknownName(_) => Unknown
    case UnknownLetter(_, _, _) => Unknown
    case AskForHelp(_) => Help
    case LetterForHelp(_, _) => Help
    case AskForOptions => ListOpts
    case AskForCommands => ListCmds
    case NoKnownKind(_) => Fatal
    case NoKnownShort(_) => Fatal
    case OneDashTooFew(_, _) => Typo
    case _ => Misuse
  }

  // ----- long names

  lemma ReservedNames(f: Flags, name: string)
    ensures Reserved(f, name).None? <==> !ReservedName(f, name)
    ensures f.internalHelp && name in {"help", "help-all"} ==> Reserved(f, name) == Some(Help)
    ensures Reserved(f, "list-opts") == Some(ListOpts) && Reserved(f, "list-cmds") == Some(ListCmds)
  {
  }

  /** A name that is not taken. */
  lemma LongMistake(t: Table, f: Flags, name: string, more: seq<string>, s: Store)
    requires name != "" && Reserved(f, name).None?
    ensures var m := Next(t, f, ["--" + name] + more, s, None);
            match ChoiceOf(t, name)
            case UnknownName => m == (if f.keepUnknown then Keep("--" + name, s, None) else Halt(Unknown))
            case AmbiguousName => m == Halt(Misuse)
            case ArgumentRefused => m == Halt(Misuse)
            case ArgumentKept(dangling) => m == Keep("--" + name, s, dangling)
            case Chosen(o, unset, attached) =>
              match GetValue(o, false, unset, attached, more, s)
              case Refused(_) => m == Halt(Misuse)
              case Died => m == Halt(Fatal)
              case Got(_, used, s') => m == Eat(1 + used, s')
  {
    hide SelectLong, GetValue, Reserved;
    var toks := ["--" + name] + more;
    assert toks[0][2..] == name && toks[1..] == more;
  }

  lemma NobodysName(t: Table, name: string)
    ensures NoMatches(t, name) && (forall i: nat :: !StemAt(t, i, name)) ==> ChoiceOf(t, name) == Choice.UnknownName
    ensures NoMatches(t, name) && SeveralStems(t, name) ==> ChoiceOf(t, name) == AmbiguousName
  {
    hide NoMatches, StemAt, SelectLong;
    LongNameResolution(t, name);
  }

  /** What a known name has to say is refused here. */
  lemma NextKnownName(t: Table, f: Flags, m: Mistake, more: seq<string>, s: Store)
    requires Usable(t, f) && Made(t, f, m)
    requires m.ValueForSwitch? || m.NoValueLong? || m.BadValueEq? || m.BadValueSep? || m.NoKnownKind?
    requires m.NoValueLong? ==> more == []
    ensures Next(t, f, Wrong(t, f, m) + more, s, None) == Halt(Because(m))
  {
    hide ConflictFree, ChoiceOf, Reserved, Next, Reading, NumberTexts.Numeric;
    var o := t[m.i];
    var name := o.long.value;
    match m {
      case NoValueLong(i) =>
        SelectsNamed(t, i, "");
        assert name + "" == name;
        LongMistake(t, f, name, more, s);
      case NoKnownKind(i) =>
        SelectsNamed(t, i, "");
        assert name + "" == name;
        LongMistake(t, f, name, more, s);
      case BadValueSep(i, v) =>
        SelectsNamed(t, i, "");
        assert name + "" == name;
        ReadsGiven(o.kind, v);
        LongMistake(t, f, name, [v] + more, s);
        assert ["--" + name, v] + more == ["--" + name] + ([v] + more);
      case ValueForSwitch(i, v) =>
        NextWithValue(t, f, i, v, more, s);
      case BadValueEq(i, v) =>
        ReadsGiven(o.kind, v);
        NextWithValue(t, f, i, v, more, s);
      case _ =>
    }
  }

  lemma NextWithValue(t: Table, f: Flags, i: nat, v: string, more: seq<string>, s: Store)
    requires Usable(t, f) && HasLong(t, i) && t[i].kind != Argument
    requires GetValue(t[i], false, false, Some(v), more, s).Refused?
    ensures Next(t, f, ["--" + (t[i].long.value + ("=" + v))] + more, s, None) == Halt(Misuse)
  {
    hide ConflictFree, ChoiceOf, Reserved, Next, GetValue;
    var attached := "=" + v;
    assert attached[1..] == v;
    SelectsNamed(t, i, attached);
    HasEqualsSign(t[i].long.value, v);
    NotReserved(f, t[i].long.value + attached);
    LongMistake(t, f, t[i].long.value + attached, more, s);
  }

  lemma HasEqualsSign(name: string, v: string)
    ensures '=' in name + ("=" + v)
  {
    assert (name + ("=" + v))[|name|] == '=';
  }

  lemma NegatedWithValue(t: Table, i: nat, v: string)
    requires ConflictFree(t) && HasLong(t, i) && t[i].kind != Argument && !Repeating(t[i].long.value)
    ensures ChoiceOf(t, ("no-" + t[i].long.value) + ("=" + v)) == Chosen(t[i], true, Some(v))
  {
    hide ConflictFree, ChoiceOf, Repeating;
    var name := t[i].long.value;
    var negated := "no-" + name;
    var arg := negated + ("=" + v);
    assert arg[|negated| + 1..] == v;
    assert OptionsLookup.Says(negated, arg) && Behind(negated, arg) == Some(v);
    if name <= arg {
      PrefixIsNoNegation(name, arg);
    }
    if "no-" <= name && name[3..] <= arg {
      InnerPrefixIsNoNegation(name, arg);
    }
    MatchWins(t, i, arg);
  }

  lemma NextNegatedWithValue(t: Table, f: Flags, i: nat, v: string, more: seq<string>, s: Store)
    requires Usable(t, f) && HasLong(t, i) && t[i].kind != Argument && !Repeating(t[i].long.value)
    ensures Next(t, f, ["--" + (("no-" + t[i].long.value) + ("=" + v))] + more, s, None) == Halt(Misuse)
  {
    hide ConflictFree, ChoiceOf, Reserved, Next;
    var arg := ("no-" + t[i].long.value) + ("=" + v);
    NegatedWithValue(t, i, v);
    HasEqualsSign("no-" + t[i].long.value, v);
    NotReserved(f, arg);
    LongMistake(t, f, arg, more, s);
  }

  lemma NextArgumentWithValue(t: Table, f: Flags, i: nat, v: string, more: seq<string>, s: Store)
    requires Usable(t, f) && HasLong(t, i) && t[i].kind == Argument
    ensures Next(t, f, ["--" + (t[i].long.value + ("=" + v))] + more, s, None) == Halt(Misuse)
  {
    hide ConflictFree, ChoiceOf, Reserved, Next;
    var name := t[i].long.value;
    var arg := name + ("=" + v);
    assert OptionsLookup.Says(name, arg) && Matches(t[i], arg) && Behind(name, arg).Some?;
    MatchWins(t, i, arg);
    HasEqualsSign(name, v);
    NotReserved(f, arg);
    LongMistake(t, f, arg, more, s);
  }

  lemma NextReserved(t: Table, f: Flags, name: string, more: seq<string>, s: Store)
    requires name != "" && Reserved(f, name).Some?
    ensures Next(t, f, ["--" + name] + more, s, None) == Halt(Reserved(f, name).value)
  {
    hide Reserved;
    var toks := ["--" + name] + more;
    assert toks[0][2..] == name;
  }

  lemma NextOwnName(t: Table, f: Flags, m: Mistake, more: seq<string>, s: Store)
    requires Made(t, f, m) && (m.AskForHelp? || m.AskForOptions? || m.AskForCommands?)
    ensures Next(t, f, Wrong(t, f, m) + more, s, None) == Halt(Because(m))
  {
    hide Next, Reserved;
    var name := if m.AskForHelp? then m.name else if m.AskForOptions? then "list-opts" else "list-cmds";
    ReservedNames(f, name);
    assert name != "";
    NextReserved(t, f, name, more, s);
    assert "--list-opts" == "--" + "list-opts" && "--list-cmds" == "--" + "list-cmds";
  }

  lemma NextNobodysName(t: Table, f: Flags, m: Mistake, more: seq<string>, s: Store)
    requires Made(t, f, m) && (m.UnknownName? || m.AmbiguousStem?)
    ensures Next(t, f, Wrong(t, f, m) + more, s, None) == Halt(Because(m))
  {
    hide NoMatches, StemAt, SeveralStems, ChoiceOf, Next;
    ReservedNames(f, m.name);
    NobodysName(t, m.name);
    LongMistake(t, f, m.name, more, s);
  }

  /** Unknown names are kept when that is asked for, and the store is not touched. */
  lemma UnknownNameIsKept(t: Table, f: Flags, name: string, more: seq<string>, s: Store)
    requires f.keepUnknown && name != "" && !ReservedName(f, name)
    requires NoMatches(t, name) && forall i: nat :: !StemAt(t, i, name)
    ensures Next(t, f, ["--" + name] + more, s, None) == Keep("--" + name, s, None)
  {
    hide NoMatches, StemAt, ChoiceOf, Next;
    ReservedNames(f, name);
    NobodysName(t, name);
    LongMistake(t, f, name, more, s);
  }

  /** Kinds for which there is nothing to do end the program on the spot, if no value is refused first. */
  lemma KindsWithoutUse(o: Opt, short: bool, unset: bool, attached: Option<string>, next: seq<string>, s: Store)
    requires o.kind in {Callback, Group, Argument}
    ensures GetValue(o, short, unset, attached, next, s)
            == if attached.Some? && (unset || (!short && o.kind == Callback)) then Refused(s) else Died
  {
  }

  // ----- clusters

  lemma LongWords(t: Table, word: string)
    ensures LooksLikeLong(t, word) <==> LongWord(t, word)
  {
    if "no-" <= word {
      assert word == "no-" + word[3..];
    }
    if i: nat, rest :| i < |t| && t[i].long == Some(word + rest) {
      assert word <= t[i].long.value;
    }
    if i :| 0 <= i < |t| && t[i].long.Some? && word <= t[i].long.value {
      assert t[i].long.value == word + t[i].long.value[|word|..];
    }
  }

  /** An unknown letter, or h for help, ends the cluster that it is in. */
  lemma NextLetter(t: Table, f: Flags, letters: seq<nat>, c: char, rest: string, more: seq<string>, s: Store)
    requires Usable(t, f) && AllShortSwitches(t, letters) && (letters == [] ==> c != '-')
    requires letters != [] ==> !LongWord(t, ShortText(t, letters) + ([c] + rest))
    requires if f.internalHelp && c == 'h' then true else forall k :: 0 <= k < |t| ==> t[k].short != Some(c)
    ensures var m := Next(t, f, ["-" + (ShortText(t, letters) + ([c] + rest))] + more, s, None);
            if f.internalHelp && c == 'h' then m == Halt(Help)
            else if !f.keepUnknown then m == Halt(Unknown)
            else m == Keep("-" + ([c] + rest), SwitchAll(t, letters, s), None)
  {
    hide ConflictFree, LooksLikeLong, Next, GetValue, LongWord;
    var tail := [c] + rest;
    var word := ShortText(t, letters) + tail;
    FirstLetter(t, f, letters, tail);
    LongWords(t, word);
    LettersInFront(t, f, word, letters, tail, more, s);
    NextCluster(t, f, word, more, s);
    assert FindShort(t, tail[0], 0).Some? ==> t[FindShort(t, tail[0], 0).value].short == Some(c);
  }

  lemma NextOneDash(t: Table, f: Flags, i: nat, rest: string, more: seq<string>, s: Store)
    requires Usable(t, f) && IsShortSwitch(t, i) && rest != "" && LongWord(t, [t[i].short.value] + rest)
    ensures Next(t, f, ["-" + ([t[i].short.value] + rest)] + more, s, None) == Halt(Typo)
  {
    hide ConflictFree, LooksLikeLong, Next, LongWord, Switch;
    var word := [t[i].short.value] + rest;
    FindsOwnShort(t, f, i, 0);
    assert word[1..] == rest;
    LongWords(t, word);
    NextCluster(t, f, word, more, s);
  }

  lemma NextShortValue(t: Table, f: Flags, m: Mistake, more: seq<string>, s: Store)
    requires Usable(t, f) && Made(t, f, m) && (m.NoValueShort? || m.BadValueShort? || m.NoKnownShort?)
    requires m.NoValueShort? ==> more == []
    ensures Next(t, f, Wrong(t, f, m) + more, s, None) == Halt(Because(m))
  {
    hide ConflictFree, Next, Reading, NumberTexts.Numeric;
    var o := t[m.i];
    var text := if m.BadValueShort? then m.v else "";
    var word := [o.short.value] + text;
    assert word[1..] == text;
    FindsOwnShort(t, f, m.i, 0);
    NextCluster(t, f, word, more, s);
    if m.BadValueShort? {
      ReadsGiven(o.kind, m.v);
    } else {
      assert word == [o.short.value];
    }
  }

  // ----- whole lines

  lemma NextMistake(t: Table, f: Flags, m: Mistake, more: seq<string>, s: Store)
    requires Usable(t, f) && Made(t, f, m)
    requires m.NoValueLong? || m.NoValueShort? ==> more == []
    ensures Wrong(t, f, m) != [] && Next(t, f, Wrong(t, f, m) + more, s, None) == Halt(Because(m))
  {
    hide Usable, Next, LongWord, BadValue, ConflictFree;
    match m {
      case UnknownName(_) => NextNobodysName(t, f, m, more, s);
      case AmbiguousStem(_) => NextNobodysName(t, f, m, more, s);
      case AskForHelp(_) => NextOwnName(t, f, m, more, s);
      case AskForOptions => NextOwnName(t, f, m, more, s);
      case AskForCommands => NextOwnName(t, f, m, more, s);
      case ValueForNegation(i, v) => NextNegatedWithValue(t, f, i, v, more, s);
      case ValueForArgument(i, v) => NextArgumentWithValue(t, f, i, v, more, s);
      case NoValueShort(_) => NextShortValue(t, f, m, more, s);
      case BadValueShort(_, _) => NextShortValue(t, f, m, more, s);
      case NoKnownShort(_) => NextShortValue(t, f, m, more, s);
      case UnknownLetter(letters, c, rest) => NextLetter(t, f, letters, c, rest, more, s);
      case LetterForHelp(letters, rest) =>
        assert ['h'] + rest == "h" + rest;
        NextLetter(t, f, letters, 'h', rest, more, s);
      case OneDashTooFew(i, rest) => NextOneDash(t, f, i, rest, more, s);
      case _ => NextKnownName(t, f, m, more, s);
    }
  }

  /** Whatever was said before and whatever comes after, the first mistake ends the program, and
      how it ends depends on the mistake alone. */
  lemma FirstMistakeEnds(t: Table, f: Flags, items: seq<Item>, m: Mistake, more: seq<string>, s: Store)
    requires Usable(t, f) && AllSayable(t, f, items) && Made(t, f, m)
    requires m.NoValueLong? || m.NoValueShort? ==> more == []
    ensures Parse(t, f, RenderAll(t, f, items) + (Wrong(t, f, m) + more), [], s, None) == Exit(Because(m))
  {
    hide Usable, AllSayable, Made, RenderAll, Wrong, EffectAll, Next;
    RenderThen(t, f, items, Wrong(t, f, m) + more, [], s);
    NextMistake(t, f, m, more, EffectAll(t, f, items, s));
  }
}
