/** Writing a list of settings as a command line and reading it back. */
module OptionsRoundTrip {
  import opened Machine
  import opened Options
  import opened OptionsLookup
  import Numbers
  import NumberTexts

  /** One thing to say on a command line; `i` is an index of the option table. A stem is the
      beginning of a long name, or of its negation, that fits no other entry. */
  datatype Item =
    | Positional(text: string)
    | LongEq(i: nat, v: string)
    | LongSep(i: nat, v: string)
    | ShortSep(i: nat, v: string)
    | ShortJoined(i: nat, v: string)
    | LongSwitch(i: nat)
    | Negated(i: nat)
    | StemEq(i: nat, stem: string, v: string)
    | StemSep(i: nat, stem: string, v: string)
    | StemSwitch(i: nat, stem: string)
    | StemNegated(i: nat, stem: string)
    | Switches(indices: seq<nat>)
    | ClusterSep(letters: seq<nat>, i: nat, v: string)
    | ClusterJoined(letters: seq<nat>, i: nat, v: string)

  /** A table whose names can all be used: its entries are not in conflict, long names are not
      empty and not reserved, short names are distinct, no dash, and not h while h asks for help. */
  ghost predicate Usable(t: Table, f: Flags) {
    && ConflictFree(t)
    && (forall i :: 0 <= i < |t| && t[i].long.Some? ==> t[i].long.value != "" && Reserved(f, t[i].long.value).None?)
    && (forall i :: 0 <= i < |t| && t[i].short.Some? ==>
          t[i].short.value != '-' && (f.internalHelp ==> t[i].short.value != 'h'))
    && (forall i, j :: 0 <= i < j < |t| && t[i].short.Some? ==> t[i].short != t[j].short)
  }

  predicate HasLong(t: Table, i: nat) {
    i < |t| && t[i].long.Some?
  }

  predicate HasShort(t: Table, i: nat) {
    i < |t| && t[i].short.Some?
  }

  /** A text is any text, and a number is a numeral. */
  ghost predicate Settable(t: Table, i: nat, v: string) {
    && i < |t| && TakesValue(t[i].kind)
    && (t[i].kind in {Str, Filename} || NumberTexts.Numeric(NumberKindOf(t[i].kind), v))
  }

  /** The value that such a text stands for. */
  function Given(k: Kind, v: string): Value
    requires TakesValue(k)
  {
    if k in {Str, Filename} then TextV(Some(v)) else NumV(Numbers.OptionNumber(NumberKindOf(k), v).GetOr(0))
  }

  lemma ReadsGiven(k: Kind, v: string)
    requires TakesValue(k)
    ensures Reading(k, v).1 <==> k in {Str, Filename} || NumberTexts.Numeric(NumberKindOf(k), v)
    ensures Reading(k, v).1 ==> Reading(k, v).0 == Given(k, v)
  {
    hide Numbers.OptionReading, NumberTexts.Numeric;
    if k !in {Str, Filename} {
      NumberTexts.AcceptedTexts(NumberKindOf(k), v);
    }
  }

  /** The argument is a stem for this entry alone, and nobody's whole name. */
  ghost predicate OnlyStem(t: Table, i: nat, arg: string) {
    NoMatches(t, arg) && StemAt(t, i, arg) && forall k: nat :: StemAt(t, k, arg) ==> k == i
  }

  predicate IsShortSwitch(t: Table, i: nat) {
    HasShort(t, i) && IsSwitch(t[i].kind)
  }

  ghost predicate AllShortSwitches(t: Table, indices: seq<nat>) {
    forall k {:trigger indices[k]} :: 0 <= k < |indices| ==> IsShortSwitch(t, indices[k])
  }

  ghost function ShortText(t: Table, indices: seq<nat>): string
    requires AllShortSwitches(t, indices)
  {
    if indices == [] then ""
    else [t[indices[0]].short.value] + ShortText(t, indices[1..])
  }

  ghost predicate SayableStem(t: Table, f: Flags, i: nat, stem: string) {
    stem != "" && '=' !in stem && Reserved(f, stem).None? && OnlyStem(t, i, stem)
  }

  /** What can be said at all. A cluster of several switches must not look like a long option. */
  ghost predicate Sayable(t: Table, f: Flags, it: Item) {
    match it
    case Positional(text) => (text in {"", "-"} || text[0] != '-') && !f.stopAtNonOption
    case LongEq(i, v) => HasLong(t, i) && Settable(t, i, v)
    case LongSep(i, v) => HasLong(t, i) && Settable(t, i, v)
    case ShortSep(i, v) => HasShort(t, i) && Settable(t, i, v)
    case ShortJoined(i, v) => HasShort(t, i) && Settable(t, i, v) && v != ""
    case LongSwitch(i) => HasLong(t, i) && IsSwitch(t[i].kind)
    case Negated(i) =>
      HasLong(t, i) && (IsSwitch(t[i].kind) || TakesValue(t[i].kind)) && !Repeating(t[i].long.value)
    case StemEq(i, stem, v) =>
      Settable(t, i, v) && '=' !in stem && OnlyStem(t, i, stem + ("=" + v)) && !NegatedStem(t[i], stem + ("=" + v))
    case StemSep(i, stem, v) => Settable(t, i, v) && SayableStem(t, f, i, stem) && !NegatedStem(t[i], stem)
    case StemSwitch(i, stem) => SayableStem(t, f, i, stem) && IsSwitch(t[i].kind) && !NegatedStem(t[i], stem)
    case StemNegated(i, stem) =>
      SayableStem(t, f, i, stem) && (IsSwitch(t[i].kind) || TakesValue(t[i].kind)) && NegatedStem(t[i], stem)
    case Switches(indices) =>
      && indices != []
      && AllShortSwitches(t, indices)
      && (|indices| > 1 ==> !LooksLikeLong(t, ShortText(t, indices)))
    case ClusterSep(letters, i, v) =>
      && AllShortSwitches(t, letters) && letters != [] && HasShort(t, i) && Settable(t, i, v)
      && !LooksLikeLong(t, ShortText(t, letters) + [t[i].short.value])
    case ClusterJoined(letters, i, v) =>
      && AllShortSwitches(t, letters) && letters != [] && HasShort(t, i) && Settable(t, i, v) && v != ""
      && !LooksLikeLong(t, ShortText(t, letters) + ([t[i].short.value] + v))
  }

  ghost function Render(t: Table, f: Flags, it: Item): seq<string>
    requires Sayable(t, f, it)
  {
    match it
    case Positional(text) => [text]
    case LongEq(i, v) => ["--" + (t[i].long.value + ("=" + v))]
    case LongSep(i, v) => ["--" + t[i].long.value, v]
    case ShortSep(i, v) => ["-" + [t[i].short.value], v]
    case ShortJoined(i, v) => ["-" + ([t[i].short.value] + v)]
    case LongSwitch(i) => ["--" + t[i].long.value]
    case Negated(i) => ["--" + ("no-" + t[i].long.value)]
    case StemEq(_, stem, v) => ["--" + (stem + ("=" + v))]
    case StemSep(_, stem, v) => ["--" + stem, v]
    case StemSwitch(_, stem) => ["--" + stem]
    case StemNegated(_, stem) => ["--" + stem]
    case Switches(indices) => ["-" + ShortText(t, indices)]
    case ClusterSep(letters, i, v) => ["-" + (ShortText(t, letters) + [t[i].short.value]), v]
    case ClusterJoined(letters, i, v) => ["-" + (ShortText(t, letters) + ([t[i].short.value] + v))]
  }

  ghost function SwitchAll(t: Table, indices: seq<nat>, s: Store): Store
    requires AllShortSwitches(t, indices)
  {
    if indices == [] then s
    else SwitchAll(t, indices[1..], Switch(t[indices[0]], false, s))
  }

  function Negation(o: Opt, s: Store): Store
    requires IsSwitch(o.kind) || TakesValue(o.kind)
  {
    if IsSwitch(o.kind) then Switch(o, true, s) else Cleared(o, s)
  }

  /** What an item means. */
  ghost function Effect(t: Table, f: Flags, it: Item, s: Store): Store
    requires Sayable(t, f, it)
  {
    match it
    case Positional(_) => s
    case LongSwitch(i) => Switch(t[i], false, s)
    case StemSwitch(i, _) => Switch(t[i], false, s)
    case Negated(i) => Negation(t[i], s)
    case StemNegated(i, _) => Negation(t[i], s)
    case Switches(indices) => SwitchAll(t, indices, s)
    case ClusterSep(letters, i, v) => SwitchAll(t, letters, s)[t[i].loc := Given(t[i].kind, v)]
    case ClusterJoined(letters, i, v) => SwitchAll(t, letters, s)[t[i].loc := Given(t[i].kind, v)]
    case _ => s[t[it.i].loc := Given(t[it.i].kind, it.v)]
  }

  // ----- long names

  lemma SelectsNamed(t: Table, i: nat, more: string)
    requires ConflictFree(t) && HasLong(t, i) && t[i].kind != Argument
    requires more == "" || more[0] == '='
    ensures ChoiceOf(t, t[i].long.value + more)
            == Chosen(t[i], false, if more == "" then None else Some(more[1..]))
  {
    hide ConflictFree, ChoiceOf;
    var name := t[i].long.value;
    var arg := name + more;
    assert OptionsLookup.Says(name, arg) && Matches(t[i], arg);
    assert more != "" ==> arg[|name| + 1..] == more[1..];
    MatchWins(t, i, arg);
  }

  lemma SelectsNegated(t: Table, i: nat)
    requires ConflictFree(t) && HasLong(t, i) && t[i].kind != Argument && !Repeating(t[i].long.value)
    ensures ChoiceOf(t, "no-" + t[i].long.value) == Chosen(t[i], true, None)
  {
    hide ConflictFree, SelectLong, Repeating;
    NegationWorks(t, i);
  }

  lemma AttachedText(stem: string, more: string)
    requires '=' !in stem && (more == "" || more[0] == '=')
    ensures Stem(stem + more) == stem
    ensures Attached(stem + more) == if more == "" then None else Some(more[1..])
  {
    StemIsBefore(stem, more);
    assert more != "" ==> (stem + more)[|stem| + 1..] == more[1..];
  }

  lemma {:induction false} StemIsBefore(stem: string, more: string)
    requires '=' !in stem && (more == "" || more[0] == '=')
    ensures StemLength(stem + more) == |stem|
  {
    if stem == "" {
      assert stem + more == more;
    } else {
      assert (stem + more)[1..] == stem[1..] + more;
      StemIsBefore(stem[1..], more);
    }
  }

  /** A stem that fits one entry only stands for its name, with all that follows the first `=`,
      or for its negation. */
  lemma SelectsStem(t: Table, i: nat, stem: string, more: string)
    requires '=' !in stem && (more == "" || more[0] == '=') && OnlyStem(t, i, stem + more)
    ensures var unset := NegatedStem(t[i], stem + more);
            ChoiceOf(t, stem + more)
            == Chosen(t[i], unset, if unset || more == "" then None else Some(more[1..]))
  {
    hide NoMatches, IsStemOf, NegatedStem, SelectLong, Attached, Stem;
    AttachedText(stem, more);
    LongNameResolution(t, stem + more);
  }

  lemma NotReserved(f: Flags, text: string)
    requires '=' in text || "no-" <= text
    ensures Reserved(f, text).None?
  {
    assert forall r | r in {"help-all", "help", "list-opts", "list-cmds"} :: '=' !in r && r[0] != 'n';
    assert "no-" <= text ==> text[0] == 'n';
  }

  /** A long option that the table knows, with what is attached to it and what follows. */
  lemma NextLongOption(t: Table, f: Flags, text: string, next: seq<string>, s: Store, o: Opt,
                       unset: bool, attached: Option<string>)
    requires text != "" && Reserved(f, text).None?
    requires ChoiceOf(t, text) == Chosen(o, unset, attached)
    ensures Next(t, f, ["--" + text] + next, s, None) ==
            (match GetValue(o, false, unset, attached, next, s)
             case Got(_, used, s') => Eat(1 + used, s')
             case Refused(_) => Halt(Misuse)
             case Died => Halt(Fatal))
  {
    hide SelectLong, GetValue, Reserved;
    var toks := ["--" + text] + next;
    assert toks[0][2..] == text && toks[1..] == next;
  }

  /** An accepted value is stored, whether it is attached or follows. */
  lemma Accepted(o: Opt, short: bool, attached: Option<string>, next: seq<string>, s: Store, v: string)
    requires Settable([o], 0, v)
    requires if attached.Some? then v == attached.value else next != [] && v == next[0]
    ensures GetValue(o, short, false, attached, next, s)
            == Got(None, if attached.Some? then 0 else 1, s[o.loc := Given(o.kind, v)])
  {
    hide Reading, Given, NumberTexts.Numeric;
    ReadsGiven(o.kind, v);
  }

  /** So a text is stored as it is. */
  lemma TextIsStored(o: Opt, short: bool, next: seq<string>, s: Store, v: string)
    requires o.kind in {Str, Filename}
    ensures GetValue(o, short, false, Some(v), next, s) == Got(None, 0, s[o.loc := TextV(Some(v))])
    ensures GetValue(o, short, false, None, [v] + next, s) == Got(None, 1, s[o.loc := TextV(Some(v))])
  {
    Accepted(o, short, Some(v), next, s, v);
    Accepted(o, short, None, [v] + next, s, v);
  }

  lemma NextLongEq(t: Table, f: Flags, i: nat, v: string, more: seq<string>, s: Store)
    requires Usable(t, f) && HasLong(t, i) && Settable(t, i, v)
    ensures Next(t, f, ["--" + (t[i].long.value + ("=" + v))] + more, s, None)
            == Eat(1, s[t[i].loc := Given(t[i].kind, v)])
  {
    hide ChoiceOf, ConflictFree, Given, NumberTexts.Numeric, Reserved, Next, IsOperand, GetValue;
    var name := t[i].long.value;
    var more' := "=" + v;
    var text := name + more';
    assert more'[1..] == v;
    assert '=' in text by {
      assert text[|name|] == '=';
    }
    NotReserved(f, text);
    SelectsNamed(t, i, more');
    Accepted(t[i], false, Some(v), more, s, v);
    NextLongOption(t, f, text, more, s, t[i], false, Some(v));
  }

  lemma NextLongSep(t: Table, f: Flags, i: nat, v: string, more: seq<string>, s: Store)
    requires Usable(t, f) && HasLong(t, i) && Settable(t, i, v)
    ensures Next(t, f, ["--" + t[i].long.value, v] + more, s, None)
            == Eat(2, s[t[i].loc := Given(t[i].kind, v)])
  {
    var name := t[i].long.value;
    assert name + "" == name;
    SelectsNamed(t, i, "");
    hide ChoiceOf, ConflictFree, Given, NumberTexts.Numeric, Reserved, Next;
    Accepted(t[i], false, None, [v] + more, s, v);
    NextLongOption(t, f, name, [v] + more, s, t[i], false, None);
    assert ["--" + name, v] + more == ["--" + name] + ([v] + more);
  }

  lemma NextLongSwitch(t: Table, f: Flags, i: nat, more: seq<string>, s: Store)
    requires Usable(t, f) && HasLong(t, i) && IsSwitch(t[i].kind)
    ensures Next(t, f, ["--" + t[i].long.value] + more, s, None) == Eat(1, Switch(t[i], false, s))
  {
    var name := t[i].long.value;
    assert name + "" == name;
    SelectsNamed(t, i, "");
    hide ChoiceOf, ConflictFree, Reserved, Next, Switch;
    NextLongOption(t, f, name, more, s, t[i], false, None);
  }

  lemma NextNegated(t: Table, f: Flags, i: nat, more: seq<string>, s: Store)
    requires Usable(t, f) && HasLong(t, i) && !Repeating(t[i].long.value)
    requires IsSwitch(t[i].kind) || TakesValue(t[i].kind)
    ensures Next(t, f, ["--" + ("no-" + t[i].long.value)] + more, s, None)
            == Eat(1, Negation(t[i], s))
  {
    NotReserved(f, "no-" + t[i].long.value);
    SelectsNegated(t, i);
    hide ChoiceOf, ConflictFree, Reserved, Next, Switch, Cleared;
    NextLongOption(t, f, "no-" + t[i].long.value, more, s, t[i], true, None);
  }

  /** Stems are read like whole names. */
  lemma NextStem(t: Table, f: Flags, it: Item, more: seq<string>, s: Store)
    requires Sayable(t, f, it) && (it.StemEq? || it.StemSep? || it.StemSwitch? || it.StemNegated?)
    ensures Next(t, f, Render(t, f, it) + more, s, None) == Eat(|Render(t, f, it)|, Effect(t, f, it, s))
  {
    hide ChoiceOf, OnlyStem, NegatedStem, Reserved, Next, Switch, Cleared, Given, GetValue, NumberTexts.Numeric;
    match it {
      case StemEq(i, stem, v) =>
        var more' := "=" + v;
        assert more'[1..] == v && '=' in stem + more' by {
          assert (stem + more')[|stem|] == '=';
        }
        NotReserved(f, stem + more');
        SelectsStem(t, i, stem, more');
        Accepted(t[i], false, Some(v), more, s, v);
        NextLongOption(t, f, stem + more', more, s, t[i], false, Some(v));
      case StemSep(i, stem, v) =>
        PlainStem(t, i, stem);
        Accepted(t[i], false, None, [v] + more, s, v);
        NextLongOption(t, f, stem, [v] + more, s, t[i], false, None);
        assert ["--" + stem, v] + more == ["--" + stem] + ([v] + more);
      case StemSwitch(i, stem) =>
        PlainStem(t, i, stem);
        SwitchesAndNegations(t[i], false, more, s);
        NextLongOption(t, f, stem, more, s, t[i], false, None);
      case StemNegated(i, stem) =>
        PlainStem(t, i, stem);
        SwitchesAndNegations(t[i], true, more, s);
        NextLongOption(t, f, stem, more, s, t[i], true, None);
      case _ =>
    }
  }

  lemma PlainStem(t: Table, i: nat, stem: string)
    requires '=' !in stem && OnlyStem(t, i, stem)
    ensures StemAt(t, i, stem) && ChoiceOf(t, stem) == Chosen(t[i], NegatedStem(t[i], stem), None)
  {
    hide ChoiceOf, NegatedStem, IsStemOf;
    assert stem + "" == stem;
    SelectsStem(t, i, stem, "");
  }

  lemma SwitchesAndNegations(o: Opt, unset: bool, next: seq<string>, s: Store)
    ensures IsSwitch(o.kind) ==> GetValue(o, false, unset, None, next, s) == Got(None, 0, Switch(o, unset, s))
    ensures unset && TakesValue(o.kind) ==> GetValue(o, false, unset, None, next, s) == Got(None, 0, Cleared(o, s))
  {
  }

  // ----- short names

  lemma {:induction false} FindsOwnShort(t: Table, f: Flags, i: nat, from: nat)
    requires Usable(t, f) && HasShort(t, i) && from <= i
    ensures FindShort(t, t[i].short.value, from) == Some(i)
    decreases i - from
  {
    if from < i {
      FindsOwnShort(t, f, i, from + 1);
    }
  }

  lemma NextShortSetting(t: Table, f: Flags, it: Item, more: seq<string>, s: Store)
    requires Usable(t, f) && Sayable(t, f, it)
    requires it.ShortSep? || it.ShortJoined?
    ensures var toks := Render(t, f, it) + more;
            Next(t, f, toks, s, None) == Eat(|Render(t, f, it)|, Effect(t, f, it, s))
  {
    hide ConflictFree, GetValue;
    FindsOwnShort(t, f, it.i, 0);
    var toks := Render(t, f, it) + more;
    var opt := toks[0][1..];
    assert opt[0] == t[it.i].short.value;
    if it.ShortSep? {
      assert toks[1..][0] == it.v;
      Accepted(t[it.i], true, None, toks[1..], s, it.v);
    } else {
      assert opt[1..] == it.v;
      Accepted(t[it.i], true, Some(it.v), toks[1..], s, it.v);
    }
  }

  lemma {:induction false} ClusterOfSwitches(t: Table, f: Flags, whole: string, indices: seq<nat>,
                                             next: seq<string>, s: Store)
    requires Usable(t, f) && indices != []
    requires AllShortSwitches(t, indices)
    requires |ShortText(t, indices)| <= |whole|
    ensures var typo := |indices| > 1 && |ShortText(t, indices)| == |whole| && LooksLikeLong(t, whole);
            Cluster(t, f, whole, ShortText(t, indices), next, s)
            == if typo then Stopped(Typo) else Consumed(0, SwitchAll(t, indices, s))
    decreases |indices|
  {
    hide ConflictFree, LooksLikeLong, Switch;
    var opt := ShortText(t, indices);
    var o := t[indices[0]];
    FindsOwnShort(t, f, indices[0], 0);
    assert opt[0] == o.short.value && opt[1..] == ShortText(t, indices[1..]);
    if |indices| > 1 {
      ClusterOfSwitches(t, f, whole, indices[1..], next, Switch(o, false, s));
    } else {
      assert SwitchAll(t, indices[1..], Switch(o, false, s)) == Switch(o, false, s);
    }
  }

  /** A cluster of known switches is accepted if and only if it is a single switch or does not
      look like a long option; otherwise the process ends with a hint about two dashes. */
  lemma ClusterAccepted(t: Table, f: Flags, indices: seq<nat>, more: seq<string>, s: Store)
    requires Usable(t, f) && indices != []
    requires AllShortSwitches(t, indices)
    ensures var word := ShortText(t, indices);
            Next(t, f, ["-" + word] + more, s, None)
            == if |indices| > 1 && LooksLikeLong(t, word) then Halt(Typo) else Eat(1, SwitchAll(t, indices, s))
  {
    hide LooksLikeLong, ConflictFree;
    var word := ShortText(t, indices);
    var toks := ["-" + word] + more;
    assert toks[0][1..] == word && word[0] != '-' && toks[1..] == more;
    ClusterOfSwitches(t, f, word, indices, more, s);
  }

  /** Known switches in front are read one by one, if their word is not taken for a long option. */
  lemma {:induction false} LettersInFront(t: Table, f: Flags, whole: string, letters: seq<nat>, tail: string,
                                          next: seq<string>, s: Store)
    requires Usable(t, f) && AllShortSwitches(t, letters) && tail != ""
    requires |letters| + |tail| <= |whole|
    requires letters != [] ==> |letters| + |tail| < |whole| || !LooksLikeLong(t, whole)
    ensures |ShortText(t, letters)| == |letters|
    ensures Cluster(t, f, whole, ShortText(t, letters) + tail, next, s)
            == Cluster(t, f, whole, tail, next, SwitchAll(t, letters, s))
    decreases |letters|
  {
    hide ConflictFree, LooksLikeLong, Switch;
    var opt := ShortText(t, letters) + tail;
    if letters == [] {
      assert opt == tail;
    } else {
      var o := t[letters[0]];
      FindsOwnShort(t, f, letters[0], 0);
      assert opt[0] == o.short.value && opt[1..] == ShortText(t, letters[1..]) + tail;
      LettersInFront(t, f, whole, letters[1..], tail, next, Switch(o, false, s));
    }
  }

  lemma FirstLetter(t: Table, f: Flags, letters: seq<nat>, tail: string)
    requires Usable(t, f) && AllShortSwitches(t, letters) && tail != "" && (letters == [] ==> tail[0] != '-')
    ensures (ShortText(t, letters) + tail)[0] != '-'
    ensures |ShortText(t, letters) + tail| == |letters| + |tail|
  {
    LettersLength(t, letters);
  }

  lemma {:induction false} LettersLength(t: Table, letters: seq<nat>)
    requires AllShortSwitches(t, letters)
    ensures |ShortText(t, letters)| == |letters|
  {
    if letters != [] {
      LettersLength(t, letters[1..]);
    }
  }

  lemma NextCluster(t: Table, f: Flags, word: string, more: seq<string>, s: Store)
    requires word != "" && word[0] != '-'
    ensures Next(t, f, ["-" + word] + more, s, None) == NextShort(t, f, "-" + word, more, s)
    ensures ("-" + word)[1..] == word
  {
    var toks := ["-" + word] + more;
    assert toks[0] == "-" + word && toks[1..] == more && toks[0][1] == word[0];
  }

  /** An option with a value may come behind switches in the same cluster. */
  lemma NextClusterSetting(t: Table, f: Flags, it: Item, more: seq<string>, s: Store)
    requires Usable(t, f) && Sayable(t, f, it) && (it.ClusterSep? || it.ClusterJoined?)
    ensures Next(t, f, Render(t, f, it) + more, s, None) == Eat(|Render(t, f, it)|, Effect(t, f, it, s))
  {
    hide ConflictFree, LooksLikeLong, Next, GetValue, Settable, Given, SwitchAll;
    var c := t[it.i].short.value;
    var joined := if it.ClusterJoined? then it.v else "";
    var next := if it.ClusterJoined? then more else [it.v] + more;
    var tail := [c] + joined;
    var word := ShortText(t, it.letters) + tail;
    assert it.ClusterSep? ==> tail == [c];
    FirstLetter(t, f, it.letters, tail);
    LettersInFront(t, f, word, it.letters, tail, next, s);
    NextCluster(t, f, word, next, s);
    assert Render(t, f, it) + more == ["-" + word] + next;
    ClusterSets(t, f, word, it.i, it.v, it.ClusterJoined?, next, SwitchAll(t, it.letters, s));
  }

  lemma ClusterSets(t: Table, f: Flags, whole: string, i: nat, v: string, joined: bool, next: seq<string>, s: Store)
    requires Usable(t, f) && HasShort(t, i) && Settable(t, i, v)
    requires if joined then v != "" else next != [] && next[0] == v
    ensures Cluster(t, f, whole, [t[i].short.value] + (if joined then v else ""), next, s)
            == Consumed(if joined then 0 else 1, s[t[i].loc := Given(t[i].kind, v)])
  {
    hide ConflictFree, LooksLikeLong, GetValue, Given, NumberTexts.Numeric;
    var opt := [t[i].short.value] + (if joined then v else "");
    FindsOwnShort(t, f, i, 0);
    assert opt[1..] == if joined then v else "";
    Accepted(t[i], true, if joined then Some(v) else None, next, s, v);
  }

  // ----- whole lines

  lemma NextItem(t: Table, f: Flags, it: Item, more: seq<string>, s: Store)
    requires Usable(t, f) && Sayable(t, f, it)
    ensures var toks := Render(t, f, it) + more;
            Next(t, f, toks, s, None) ==
            if it.Positional? then Keep(it.text, s, None) else Eat(|Render(t, f, it)|, Effect(t, f, it, s))
  {
    if it.Positional? {
      assert (Render(t, f, it) + more)[0] == it.text;
    } else {
      hide Usable, LooksLikeLong, Next, Switch, Cleared, ShortText, SwitchAll;
      match it {
        case Switches(indices) => ClusterAccepted(t, f, indices, more, s);
        case ShortSep(_, _) => NextShortSetting(t, f, it, more, s);
        case ShortJoined(_, _) => NextShortSetting(t, f, it, more, s);
        case LongEq(i, v) => NextLongEq(t, f, i, v, more, s);
        case LongSep(i, v) => NextLongSep(t, f, i, v, more, s);
        case LongSwitch(i) => NextLongSwitch(t, f, i, more, s);
        case Negated(i) => NextNegated(t, f, i, more, s);
        case ClusterSep(_, _, _) => NextClusterSetting(t, f, it, more, s);
        case ClusterJoined(_, _, _) => NextClusterSetting(t, f, it, more, s);
        case _ => NextStem(t, f, it, more, s);
      }
    }
  }

  ghost predicate AllSayable(t: Table, f: Flags, items: seq<Item>) {
    forall k :: 0 <= k < |items| ==> Sayable(t, f, items[k])
  }

  ghost function RenderAll(t: Table, f: Flags, items: seq<Item>): seq<string>
    requires AllSayable(t, f, items)
  {
    if items == [] then [] else Render(t, f, items[0]) + RenderAll(t, f, items[1..])
  }

  ghost function EffectAll(t: Table, f: Flags, items: seq<Item>, s: Store): Store
    requires AllSayable(t, f, items)
  {
    if items == [] then s else EffectAll(t, f, items[1..], Effect(t, f, items[0], s))
  }

  function Positionals(items: seq<Item>): seq<string> {
    if items == [] then []
    else (if items[0].Positional? then [items[0].text] else []) + Positionals(items[1..])
  }

  /** What may follow the items: nothing, or a separator and anything at all. */
  function TailText(tail: Option<seq<string>>): seq<string> {
    if tail.Some? then ["--"] + tail.value else []
  }

  lemma ParseTail(t: Table, f: Flags, tail: Option<seq<string>>, kept: seq<string>, s: Store)
    ensures Parse(t, f, TailText(tail), kept, s, None)
            == Done(kept, if f.keepDashDash then TailText(tail) else tail.GetOr([]), s)
  {
    if tail.Some? {
      assert TailText(tail)[1..] == tail.value && TailText(tail)[0..] == TailText(tail);
    }
  }

  /** One item is read, and the parse goes on behind it. */
  lemma ParseItem(t: Table, f: Flags, it: Item, rest: seq<string>, kept: seq<string>, s: Store)
    requires Usable(t, f) && Sayable(t, f, it)
    ensures Parse(t, f, Render(t, f, it) + rest, kept, s, None)
            == Parse(t, f, rest, if it.Positional? then kept + [it.text] else kept, Effect(t, f, it, s), None)
  {
    hide Usable, Sayable, Next, Effect, Render;
    var first := Render(t, f, it);
    RenderedLength(t, f, it);
    assert (first + rest)[|first|..] == rest;
    NextItem(t, f, it, rest, s);
  }

  /** Reading the items comes to their effects in order, whatever follows them. */
  lemma {:induction false} RenderThen(t: Table, f: Flags, items: seq<Item>, rest: seq<string>,
                                      kept: seq<string>, s: Store)
    requires Usable(t, f) && AllSayable(t, f, items)
    ensures Parse(t, f, RenderAll(t, f, items) + rest, kept, s, None)
            == Parse(t, f, rest, kept + Positionals(items), EffectAll(t, f, items, s), None)
    decreases |items|
  {
    hide Usable, Sayable, Effect, Render, Parse;
    if items == [] {
      assert [] + rest == rest;
      assert kept + [] == kept;
    } else {
      var it := items[0];
      assert Sayable(t, f, items[0]);
      var rest' := RenderAll(t, f, items[1..]) + rest;
      assert RenderAll(t, f, items) + rest == Render(t, f, it) + rest';
      ParseItem(t, f, it, rest', kept, s);
      var kept' := if it.Positional? then kept + [it.text] else kept;
      RenderThen(t, f, items[1..], rest, kept', Effect(t, f, it, s));
      assert kept' + Positionals(items[1..]) == kept + Positionals(items);
    }
  }

  /** Parsing what was rendered gives back the positionals in order, the effect of the
      settings in order, and the text behind the separator. */
  lemma RenderParse(t: Table, f: Flags, items: seq<Item>, tail: Option<seq<string>>,
                    kept: seq<string>, s: Store)
    requires Usable(t, f) && AllSayable(t, f, items)
    ensures Parse(t, f, RenderAll(t, f, items) + TailText(tail), kept, s, None)
            == Done(kept + Positionals(items),
                    if f.keepDashDash then TailText(tail) else tail.GetOr([]),
                    EffectAll(t, f, items, s))
  {
    hide Usable, AllSayable, EffectAll, RenderAll, TailText, Parse;
    RenderThen(t, f, items, TailText(tail), kept, s);
    ParseTail(t, f, tail, kept + Positionals(items), EffectAll(t, f, items, s));
  }

  lemma RenderedLength(t: Table, f: Flags, it: Item)
    requires Sayable(t, f, it)
    ensures 1 <= |Render(t, f, it)|
    ensures it.Positional? ==> |Render(t, f, it)| == 1
    ensures forall s :: it.Positional? ==> Effect(t, f, it, s) == s
  {
  }

  /** Numbers can be said in decimal and, when unsigned, in prefixed hexadecimal, from the least to
      the largest value of the variable. */
  lemma NumbersAreSayable(t: Table, i: nat, v: nat)
    requires i < |t| && TakesValue(t[i].kind) && t[i].kind !in {Str, Filename}
    ensures var (kind, limit) := (t[i].kind, PastLargest(t[i].kind));
            && (v < limit ==> Says(t, i, Numbers.Text(v, 10), v))
            && (v < limit && kind in {UInteger, U64} ==> Says(t, i, "0x" + Numbers.Text(v, 16), v))
            && (v <= limit && kind in {Integer, Long} ==> Says(t, i, "-" + Numbers.Text(v, 10), 0 - v))
  {
    hide Numbers.Text, Numbers.OptionNumber, Numbers.Limit, NumberTexts.Numeric;
    var kind := NumberKindOf(t[i].kind);
    LimitOfKind(t[i].kind);
    Numbers.DecimalRoundTrip(kind, v);
    NumberTexts.AcceptedTexts(kind, Numbers.Text(v, 10));
    if t[i].kind in {UInteger, U64} {
      Numbers.PrefixedHexRoundTrip(kind, v);
      NumberTexts.AcceptedTexts(kind, "0x" + Numbers.Text(v, 16));
    } else {
      Numbers.NegativeRoundTrip(kind, v);
      NumberTexts.AcceptedTexts(kind, "-" + Numbers.Text(v, 10));
    }
  }

  /** The first number that is too large for a variable of the kind. */
  function PastLargest(k: Kind): nat {
    match k
    case Integer => 0x8000_0000
    case UInteger => 0x1_0000_0000
    case Long => 0x8000_0000_0000_0000
    case _ => 0x1_0000_0000_0000_0000
  }

  /** The text sets the number x. */
  ghost predicate Says(t: Table, i: nat, text: string, x: int) {
    Settable(t, i, text) && Given(t[i].kind, text) == NumV(x)
  }

  lemma LimitOfKind(k: Kind)
    requires TakesValue(k) && k !in {Str, Filename}
    ensures PastLargest(k) == Numbers.Limit(NumberKindOf(k))
    ensures NumberKindOf(k) in {Numbers.SignedInt, Numbers.SignedLong} <==> k in {Integer, Long}
  {
  }

  /** With STOP_AT_NON_OPTION the first operand ends the options, and stays with all that follows. */
  lemma OperandStops(t: Table, f: Flags, items: seq<Item>, word: string, more: seq<string>, s: Store)
    requires Usable(t, f) && AllSayable(t, f, items)
    requires f.stopAtNonOption && (word in {"", "-"} || word[0] != '-')
    ensures Parse(t, f, RenderAll(t, f, items) + ([word] + more), [], s, None)
            == Done([], [word] + more, EffectAll(t, f, items, s))
  {
    hide Usable, RenderAll, Effect;
    RenderThen(t, f, items, [word] + more, [], s);
    NoPositionals(t, f, items);
    var toks := [word] + more;
    assert toks[0] == word && toks[0..] == toks;
    assert Next(t, f, toks, EffectAll(t, f, items, s), None) == Finish(0);
  }

  lemma {:induction false} NoPositionals(t: Table, f: Flags, items: seq<Item>)
    requires AllSayable(t, f, items) && f.stopAtNonOption
    ensures Positionals(items) == []
  {
    if items != [] {
      assert Sayable(t, f, items[0]);
      NoPositionals(t, f, items[1..]);
    }
  }

  /** A plain argument, OPTION_ARGUMENT, is left in argv as it is. */
  lemma ArgumentIsKept(t: Table, f: Flags, i: nat, more: seq<string>, s: Store)
    requires Usable(t, f) && HasLong(t, i) && t[i].kind == Argument
    ensures Next(t, f, ["--" + t[i].long.value] + more, s, None) == Keep("--" + t[i].long.value, s, None)
  {
    hide ConflictFree, ChoiceOf, Reserved;
    var name := t[i].long.value;
    var toks := ["--" + name] + more;
    assert OptionsLookup.Says(name, name) && Matches(t[i], name);
    MatchWins(t, i, name);
    assert toks[0][2..] == name && toks[1..] == more;
    assert ChoiceOf(t, name) == ArgumentKept(None);
    KeptSelection(t, name);
  }

  lemma KeptSelection(t: Table, name: string)
    ensures ChoiceOf(t, name) == ArgumentKept(None) ==> SelectLong(t, name, None) == PickArgument(None)
  {
    hide SelectLong;
  }

  // ----- the last setting wins

  predicate OptTouches(o: Opt, loc: nat) {
    loc == o.loc || o.given == Some(loc)
  }

  ghost predicate AnyTouches(t: Table, indices: seq<nat>, loc: nat)
    requires AllShortSwitches(t, indices)
  {
    exists k {:trigger indices[k]} :: 0 <= k < |indices| && OptTouches(t[indices[k]], loc)
  }

  /** May the item change the variable? */
  ghost predicate Touches(t: Table, f: Flags, it: Item, loc: nat)
    requires Sayable(t, f, it)
  {
    match it
    case Positional(_) => false
    case Switches(indices) => AnyTouches(t, indices, loc)
    case ClusterSep(letters, i, _) => AnyTouches(t, letters, loc) || OptTouches(t[i], loc)
    case ClusterJoined(letters, i, _) => AnyTouches(t, letters, loc) || OptTouches(t[i], loc)
    case _ => OptTouches(t[it.i], loc)
  }

  /** Both stores agree on the variable: the same value, or none. */
  predicate SameAt(s: Store, s': Store, loc: nat) {
    (loc in s <==> loc in s') && (loc in s ==> s[loc] == s'[loc])
  }

  lemma {:induction false} SwitchAllUntouched(t: Table, indices: seq<nat>, s: Store, loc: nat)
    requires AllShortSwitches(t, indices)
    requires forall k {:trigger indices[k]} :: 0 <= k < |indices| ==> !OptTouches(t[indices[k]], loc)
    ensures SameAt(s, SwitchAll(t, indices, s), loc)
  {
    if indices != [] {
      SwitchAllUntouched(t, indices[1..], Switch(t[indices[0]], false, s), loc);
    }
  }

  lemma EffectUntouched(t: Table, f: Flags, it: Item, s: Store, loc: nat)
    requires Sayable(t, f, it) && !Touches(t, f, it, loc)
    ensures SameAt(s, Effect(t, f, it, s), loc)
  {
    if it.Switches? {
      SwitchAllUntouched(t, it.indices, s, loc);
    } else if it.ClusterSep? || it.ClusterJoined? {
      SwitchAllUntouched(t, it.letters, s, loc);
    }
  }

  lemma {:induction false} EffectAllUntouched(t: Table, f: Flags, items: seq<Item>, s: Store, loc: nat)
    requires AllSayable(t, f, items)
    requires forall k :: 0 <= k < |items| ==> !Touches(t, f, items[k], loc)
    ensures SameAt(s, EffectAll(t, f, items, s), loc)
  {
    hide Touches, Sayable, Effect;
    if items != [] {
      assert Sayable(t, f, items[0]) && !Touches(t, f, items[0], loc);
      EffectUntouched(t, f, items[0], s, loc);
      EffectAllUntouched(t, f, items[1..], Effect(t, f, items[0], s), loc);
    }
  }

  lemma {:induction false} EffectAllOfParts(t: Table, f: Flags, before: seq<Item>, after: seq<Item>, s: Store)
    requires AllSayable(t, f, before + after)
    ensures AllSayable(t, f, before) && AllSayable(t, f, after)
    ensures EffectAll(t, f, before + after, s) == EffectAll(t, f, after, EffectAll(t, f, before, s))
  {
    hide Sayable, Effect;
    assert forall k :: 0 <= k < |before| ==> before[k] == (before + after)[k];
    assert forall k :: 0 <= k < |after| ==> after[k] == (before + after)[|before| + k];
    if before == [] {
      assert before + after == after;
      assert EffectAll(t, f, before, s) == s;
    } else {
      assert (before + after)[1..] == before[1..] + after;
      EffectAllOfParts(t, f, before[1..], after, Effect(t, f, before[0], s));
    }
  }

  /** What a switch leaves in a variable, where that does not depend on what was there. */
  function SwitchLeaves(o: Opt, unset: bool, loc: nat): Option<Value> {
    match o.kind
    case Boolean =>
      if o.given == Some(loc) then Some(BoolV(true))
      else if o.loc == loc then Some(BoolV(!unset)) else None
    case Incr => if unset && o.loc == loc then Some(NumV(0)) else None
    case _ => None
  }

  function NegationLeaves(o: Opt, loc: nat): Option<Value> {
    if IsSwitch(o.kind) then SwitchLeaves(o, true, loc)
    else if o.loc != loc then None
    else Some(if o.kind in {Str, Filename} then TextV(None) else NumV(0))
  }

  /** The last switch of a cluster that may change the variable decides. */
  ghost function ClusterLeaves(t: Table, indices: seq<nat>, loc: nat): Option<Value>
    requires AllShortSwitches(t, indices)
  {
    if indices == [] then None
    else if exists k {:trigger indices[k]} :: 1 <= k < |indices| && OptTouches(t[indices[k]], loc) then
      ClusterLeaves(t, indices[1..], loc)
    else SwitchLeaves(t[indices[0]], false, loc)
  }

  /** The value that an item gives to a variable, whatever came before; None also for an option
      that counts. */
  ghost function Leaves(t: Table, f: Flags, it: Item, loc: nat): Option<Value>
    requires Sayable(t, f, it)
  {
    match it
    case Positional(_) => None
    case Switches(indices) => ClusterLeaves(t, indices, loc)
    case LongSwitch(i) => SwitchLeaves(t[i], false, loc)
    case StemSwitch(i, _) => SwitchLeaves(t[i], false, loc)
    case Negated(i) => NegationLeaves(t[i], loc)
    case ClusterSep(letters, i, v) =>
      if t[i].loc == loc then Some(Given(t[i].kind, v)) else ClusterLeaves(t, letters, loc)
    case ClusterJoined(letters, i, v) =>
      if t[i].loc == loc then Some(Given(t[i].kind, v)) else ClusterLeaves(t, letters, loc)
    case StemNegated(i, _) => NegationLeaves(t[i], loc)
    case _ => if t[it.i].loc == loc then Some(Given(t[it.i].kind, it.v)) else None
  }

  lemma SwitchObeys(o: Opt, unset: bool, s: Store, loc: nat)
    requires IsSwitch(o.kind) && SwitchLeaves(o, unset, loc).Some?
    ensures var s' := Switch(o, unset, s);
            loc in s' && SwitchLeaves(o, unset, loc) == Some(s'[loc])
  {
  }

  lemma NegationObeys(o: Opt, s: Store, loc: nat)
    requires (IsSwitch(o.kind) || TakesValue(o.kind)) && NegationLeaves(o, loc).Some?
    ensures var s' := Negation(o, s);
            loc in s' && NegationLeaves(o, loc) == Some(s'[loc])
  {
    if IsSwitch(o.kind) {
      SwitchObeys(o, true, s, loc);
    }
  }

  lemma {:induction false} ClusterObeys(t: Table, indices: seq<nat>, s: Store, loc: nat)
    requires AllShortSwitches(t, indices) && ClusterLeaves(t, indices, loc).Some?
    ensures var s' := SwitchAll(t, indices, s);
            loc in s' && ClusterLeaves(t, indices, loc) == Some(s'[loc])
  {
    hide Switch, SwitchLeaves, OptTouches;
    var (rest, s') := (indices[1..], Switch(t[indices[0]], false, s));
    if k {:trigger indices[k]} :| 1 <= k < |indices| && OptTouches(t[indices[k]], loc) {
      ClusterObeys(t, rest, s', loc);
    } else {
      SwitchObeys(t[indices[0]], false, s, loc);
      assert forall k :: 0 <= k < |rest| ==> rest[k] == indices[k + 1];
      SwitchAllUntouched(t, rest, s', loc);
    }
  }

  lemma EffectObeys(t: Table, f: Flags, it: Item, s: Store, loc: nat)
    requires Sayable(t, f, it) && Leaves(t, f, it, loc).Some?
    ensures var s' := Effect(t, f, it, s);
            loc in s' && Leaves(t, f, it, loc) == Some(s'[loc])
  {
    hide Switch, SwitchLeaves, NegationLeaves, Negation, SwitchAll, ClusterLeaves, LooksLikeLong;
    match it {
      case Switches(indices) => ClusterObeys(t, indices, s, loc);
      case ClusterSep(letters, i, _) =>
        if t[i].loc != loc {
          ClusterObeys(t, letters, s, loc);
        }
      case ClusterJoined(letters, i, _) =>
        if t[i].loc != loc {
          ClusterObeys(t, letters, s, loc);
        }
      case LongSwitch(i) => SwitchObeys(t[i], false, s, loc);
      case StemSwitch(i, _) => SwitchObeys(t[i], false, s, loc);
      case Negated(i) => NegationObeys(t[i], s, loc);
      case StemNegated(i, _) => NegationObeys(t[i], s, loc);
      case _ =>
    }
  }

  /** A variable holds after parsing what the last item that may change it says, whatever form
      the item had and whatever stood before it: the value that was given, nothing or zero after
      a negation, the state of a Boolean switch, and that it was given. */
  lemma LastSettingWins(t: Table, f: Flags, before: seq<Item>, it: Item, after: seq<Item>,
                        tail: Option<seq<string>>, s: Store, loc: nat)
    requires Usable(t, f) && AllSayable(t, f, before + ([it] + after))
    requires Sayable(t, f, it) && Leaves(t, f, it, loc).Some?
    requires forall k :: 0 <= k < |after| ==> Sayable(t, f, after[k]) && !Touches(t, f, after[k], loc)
    ensures var toks := RenderAll(t, f, before + ([it] + after)) + TailText(tail);
            var r := Parse(t, f, toks, [], s, None);
            && r.Done? && loc in r.store
            && Leaves(t, f, it, loc) == Some(r.store[loc])
  {
    hide Usable, Sayable, Leaves, Effect, Touches, TailText, RenderAll, Parse;
    RenderParse(t, f, before + ([it] + after), tail, [], s);
    EffectAllOfParts(t, f, before, [it] + after, s);
    var s' := EffectAll(t, f, before, s);
    assert ([it] + after)[0] == it && ([it] + after)[1..] == after;
    EffectObeys(t, f, it, s', loc);
    EffectAllUntouched(t, f, after, Effect(t, f, it, s'), loc);
  }

  // ----- switches that count, and switches that do nothing

  function Repeated(it: Item, k: nat): seq<Item> {
    if k == 0 then [] else [it] + Repeated(it, k - 1)
  }

  lemma {:induction false} RepeatedEffect(t: Table, f: Flags, i: nat, k: nat, s: Store, n: int)
    requires HasLong(t, i) && t[i].kind == Incr && s.Keys >= {t[i].loc} && s[t[i].loc] == NumV(n)
    requires -INT32_LIMIT <= n && n + k < INT32_LIMIT
    ensures AllSayable(t, f, Repeated(LongSwitch(i), k))
    ensures EffectAll(t, f, Repeated(LongSwitch(i), k), s) == s[t[i].loc := NumV(n + k)]
  {
    if k > 0 {
      var items := Repeated(LongSwitch(i), k);
      assert items[0] == LongSwitch(i) && items[1..] == Repeated(LongSwitch(i), k - 1);
      var s' := Switch(t[i], false, s);
      assert s' == s[t[i].loc := NumV(n + 1)];
      RepeatedEffect(t, f, i, k - 1, s', n + 1);
      assert s'[t[i].loc := NumV(n + k)] == s[t[i].loc := NumV(n + k)];
      assert AllSayable(t, f, items) by {
        forall m | 0 <= m < |items| ensures Sayable(t, f, items[m]) {
          assert m > 0 ==> items[m] == Repeated(LongSwitch(i), k - 1)[m - 1];
        }
      }
    } else {
      assert s[t[i].loc := NumV(n)] == s;
    }
  }

  /** An option that counts goes up by one for each time that it is said, and nothing else changes. */
  lemma CountingSwitch(t: Table, f: Flags, i: nat, k: nat, tail: Option<seq<string>>, s: Store, n: int)
    requires Usable(t, f) && HasLong(t, i) && t[i].kind == Incr
    requires t[i].loc in s && s[t[i].loc] == NumV(n) && -INT32_LIMIT <= n && n + k < INT32_LIMIT
    ensures var items := Repeated(LongSwitch(i), k);
            && AllSayable(t, f, items)
            && var r := Parse(t, f, RenderAll(t, f, items) + TailText(tail), [], s, None);
               r.Done? && r.store == s[t[i].loc := NumV(n + k)]
  {
    hide Usable, Sayable, Effect, TailText, RenderAll, EffectAll, Parse;
    RepeatedEffect(t, f, i, k, s, n);
    RenderParse(t, f, Repeated(LongSwitch(i), k), tail, [], s);
  }

  /** Three kinds are accepted and have no effect. */
  lemma IdleSwitches(o: Opt, unset: bool, s: Store)
    requires o.kind in {Bit, SetUint, SetPtr}
    ensures Switch(o, unset, s) == s
  {
  }
}
