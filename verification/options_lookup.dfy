/** How long option names are resolved, for any option table. */
module OptionsLookup {
  import opened Machine
  import opened Options

  // ----- what an argument can mean for one entry

  /** The argument is the form, or the form with a value behind `=`. */
  predicate Says(form: string, arg: string) {
    form <= arg && (|arg| > |form| ==> arg[|form|] == '=')
  }

  function Behind(form: string, arg: string): Option<string> {
    if |form| < |arg| then Some(arg[|form| + 1..]) else None
  }

  /** The names "", n, no, no-, no-n, and so on. In front of their own negation the scan takes
      them for the beginning of a longer name. */
  predicate Repeating(name: string) {
    name <= "no-" + name
  }

  predicate Names(o: Opt, arg: string) {
    o.long.Some? && Says(o.long.value, arg)
  }

  /** A name that starts with `no-` is negated by leaving that out or, like any other, by adding it. */
  predicate Negates(o: Opt, arg: string) {
    && o.long.Some? && o.kind != Argument
    && var name := o.long.value;
       ("no-" <= name && Says(name[3..], arg)) || (Says("no-" + name, arg) && !Repeating(name))
  }

  /** The argument is the whole name of the entry or its whole negation. */
  predicate Matches(o: Opt, arg: string) {
    Names(o, arg) || Negates(o, arg)
  }

  /** The name or the negation that the argument says. */
  function FormOf(o: Opt, arg: string): string
    requires o.long.Some?
  {
    var name := o.long.value;
    if Names(o, arg) then name
    else if "no-" <= name && Says(name[3..], arg) then name[3..]
    else "no-" + name
  }

  function ValueGiven(o: Opt, arg: string): Option<string>
    requires o.long.Some?
  {
    Behind(FormOf(o, arg), arg)
  }

  /** A stem of the name or of its negation; `n`, `no` and `no-` are stems of every negation.
      Negated stems are recognised only without an attached value. */
  predicate IsStemOf(o: Opt, arg: string) {
    && o.long.Some? && o.kind != Argument
    && var name := o.long.value;
       && !(name <= arg) && !("no-" <= name && name[3..] <= arg)
       && (|| Stem(arg) <= name
           || ("no-" <= name && arg <= name[3..])
           || arg <= "no-"
           || ("no-" <= arg && arg[3..] <= name && !(name <= arg[3..])))
  }

  predicate NegatedStem(o: Opt, arg: string)
    requires o.long.Some?
  {
    var name := o.long.value;
    ("no-" <= name && arg <= name[3..]) || !(Stem(arg) <= name)
  }

  function DescribeEntry(o: Opt, arg: string): Verdict {
    if o.long.None? then Skip
    else if Matches(o, arg) then
      if o.kind != Argument then Exact(!Names(o, arg), ValueGiven(o, arg))
      else if ValueGiven(o, arg).None? then KeepArgument else ArgumentMisused
    else if IsStemOf(o, arg) then Abbreviates(NegatedStem(o, arg))
    else Skip
  }

  lemma RestBehind(form: string, arg: string, unset: bool)
    requires form <= arg
    ensures MatchRest(arg[|form|..], unset) == if Says(form, arg) then Exact(unset, Behind(form, arg)) else Skip
  {
    var rest := arg[|form|..];
    assert rest != "" ==> rest[0] == arg[|form|] && rest[1..] == arg[|form| + 1..];
  }

  /** Whoever is a prefix after two dashes too many is one after one. */
  lemma {:induction false} TwiceIsOnce(m: string)
    requires m <= "no-no-" + m
    ensures Repeating(m)
  {
    if |m| <= 3 {
      assert ("no-no-" + m)[..|m|] == ("no-" + m)[..|m|];
    } else {
      var m' := m[3..];
      assert m == "no-" + m' by {
        assert m[..3] == ("no-no-" + m)[..3] == "no-";
      }
      assert ("no-no-" + m)[3..|m|] == ("no-no-" + m')[..|m'|];
      assert m' == m[3..] == ("no-no-" + m)[..|m|][3..];
      TwiceIsOnce(m');
      assert "no-" + m' <= "no-" + ("no-" + m');
    }
  }

  lemma NoRepetitionInside(name: string)
    requires "no-" <= name && name[3..] <= "no-" + name
    ensures Repeating(name)
  {
    var m := name[3..];
    assert name == "no-" + m;
    assert "no-" + name == "no-no-" + m;
    TwiceIsOnce(m);
    assert "no-" + m <= "no-" + ("no-" + m);
  }

  lemma {:induction false} RepeatingLetters(m: string, k: nat)
    requires Repeating(m) && k < |m|
    ensures m[k] != '='
  {
    assert m[k] == ("no-" + m)[k];
    if k >= 3 {
      RepeatingLetters(m, k - 3);
    }
  }

  /** Where a name is a prefix but not the whole of the argument, its negation is not said. */
  lemma PrefixIsNoNegation(name: string, arg: string)
    requires name <= arg
    ensures Says("no-" + name, arg) ==> Repeating(name)
    ensures "no-" <= name ==> !Says(name[3..], arg)
  {
    var negated := "no-" + name;
    assert Says(negated, arg) ==> arg[..|negated|] == negated && arg[..|name|] == name && negated[..|name|] == name;
    if "no-" <= name && Says(name[3..], arg) {
      var m := name[3..];
      assert name == "no-" + m;
      assert m == arg[..|m|] && name == arg[..|name|];
      assert m == name[..|m|];
      assert name[|m|] == '=';
      if |m| >= 3 {
        RepeatingLetters(m, |m| - 3);
      }
      assert false;
    }
  }

  /** So it is where a name without its own `no-` is a prefix. */
  lemma InnerPrefixIsNoNegation(name: string, arg: string)
    requires "no-" <= name && name[3..] <= arg
    ensures Says("no-" + name, arg) ==> Repeating(name)
  {
    var negated := "no-" + name;
    if Says(negated, arg) {
      assert negated == arg[..|negated|] && name[3..] == arg[..|name| - 3];
      NoRepetitionInside(name);
    }
  }

  /** A whole negation is never also a stem of the name. */
  lemma NegationIsNoStem(name: string, arg: string)
    requires "no-" + name <= arg
    ensures !(Stem(arg) <= name)
  {
    var negated := "no-" + name;
    assert forall k :: 0 <= k < |negated| ==> arg[k] == negated[k];
    assert forall k :: 0 <= k < |name| ==> negated[k + 3] == name[k];
  }

  /** The comparisons of the scan amount to these meanings, whatever the name. */
  lemma ConsiderEntry(o: Opt, arg: string)
    ensures Consider(o, arg) == DescribeEntry(o, arg)
  {
    if o.long.Some? {
      if o.long.value <= arg {
        RestBehind(o.long.value, arg, false);
        PrefixIsNoNegation(o.long.value, arg);
      } else if o.kind != Argument {
        ConsiderOther(o, arg);
      }
    }
  }

  lemma ConsiderOther(o: Opt, arg: string)
    requires o.long.Some? && o.kind != Argument && !(o.long.value <= arg)
    ensures Consider(o, arg) == DescribeEntry(o, arg)
  {
    hide Stem, Says, MatchRest, Behind;
    var name := o.long.value;
    SaysPrefix(name, arg);
    SaysPrefix("no-" + name, arg);
    if "no-" <= name && name[3..] <= arg {
      RestBehind(name[3..], arg, true);
      InnerPrefixIsNoNegation(name, arg);
      assert arg[|name| - 3..] == arg[|name[3..]|..];
    } else {
      if "no-" <= name {
        SaysPrefix(name[3..], arg);
      }
      ConsiderAddedNo(o, arg);
    }
  }

  lemma SaysPrefix(form: string, arg: string)
    ensures Says(form, arg) ==> form <= arg
  {
  }

  lemma ConsiderAddedNo(o: Opt, arg: string)
    requires o.long.Some? && o.kind != Argument && !(o.long.value <= arg)
    requires "no-" <= o.long.value ==> !(o.long.value[3..] <= arg)
    ensures Consider(o, arg) == DescribeEntry(o, arg)
  {
    hide Stem, MatchRest, Behind;
    var name := o.long.value;
    var negated := "no-" + name;
    assert "no-" <= arg ==> arg == "no-" + arg[3..];
    if negated <= arg {
      NegationIsNoStem(name, arg);
      RestBehind(negated, arg, true);
      assert "no-" <= arg && name <= arg[3..] by {
        assert arg[..3] == negated[..3] && arg[3..|negated|] == negated[3..];
      }
      NotRepeating(name, arg);
      assert !(arg <= "no-") by {
        assert arg <= "no-" ==> name == "" && name <= arg;
      }
    }
  }

  lemma NotRepeating(name: string, arg: string)
    requires "no-" + name <= arg && !(name <= arg)
    ensures !Repeating(name)
  {
  }

  // ----- the whole table

  /** A stem of the name itself. It brings the value behind the first `=` with it. */
  predicate IsPlainStem(o: Opt, arg: string) {
    !Matches(o, arg) && IsStemOf(o, arg) && !NegatedStem(o, arg)
  }

  /** The value that stems among these entries leave to a match further on. */
  function LeftOver(seen: Table, arg: string): Option<string> {
    if exists k :: 0 <= k < |seen| && IsPlainStem(seen[k], arg) then Attached(arg) else None
  }

  function OrElse(first: Option<string>, second: Option<string>): Option<string> {
    if first.Some? then first else second
  }

  function MatchSelection(t: Table, i: nat, arg: string): Selection
    requires i < |t| && t[i].long.Some?
  {
    var value := ValueGiven(t[i], arg);
    if t[i].kind != Argument then Pick(Candidate(i, !Names(t[i], arg)), OrElse(value, LeftOver(t[..i], arg)))
    else if value.None? then PickArgument(LeftOver(t[..i], arg))
    else MisusedArgument
  }

  /** A value behind the stem of a negation is dropped. */
  function StemSelection(t: Table, i: nat, arg: string): Selection
    requires i < |t| && t[i].long.Some?
  {
    var unset := NegatedStem(t[i], arg);
    Pick(Candidate(i, unset), if unset then None else Attached(arg))
  }

  predicate FirstMatch(t: Table, i: nat, arg: string)
    requires i < |t|
  {
    t[i].long.Some? && Matches(t[i], arg) && forall k :: 0 <= k < i ==> !Matches(t[k], arg)
  }

  predicate NoMatches(t: Table, arg: string) {
    forall k :: 0 <= k < |t| ==> !Matches(t[k], arg)
  }

  predicate StemAt(t: Table, i: nat, arg: string) {
    i < |t| && t[i].long.Some? && IsStemOf(t[i], arg)
  }

  predicate SeveralStems(t: Table, arg: string) {
    exists j: nat, k: nat :: j < k < |t| && StemAt(t, j, arg) && StemAt(t, k, arg)
  }

  /** A whole name or a whole negation goes before every stem; the first one in the table counts.
      Without one, one stem decides, several are ambiguous, and none is unknown. */
  ghost predicate Resolves(t: Table, arg: string, r: Selection) {
    if !NoMatches(t, arg) then
      exists i: nat :: i < |t| && FirstMatch(t, i, arg) && r == MatchSelection(t, i, arg)
    else if SeveralStems(t, arg) then r == Ambiguous
    else if exists i: nat :: StemAt(t, i, arg) then
      exists i: nat :: StemAt(t, i, arg) && r == StemSelection(t, i, arg)
    else r == NoMatch
  }

  /** What the scan knows after the entries of `seen`. */
  ghost predicate Scanned(seen: Table, arg: string, abbrev: Option<Candidate>, ambiguous: bool,
                          attached: Option<string>)
  {
    && NoMatches(seen, arg)
    && (ambiguous <==> SeveralStems(seen, arg))
    && attached == LeftOver(seen, arg)
    && match abbrev
       case None => forall k: nat :: !StemAt(seen, k, arg)
       case Some(c) => StemAt(seen, c.index, arg) && c.unset == NegatedStem(seen[c.index], arg)
  }

  lemma ScanStep(seen: Table, o: Opt, arg: string, abbrev: Option<Candidate>, ambiguous: bool,
                 attached: Option<string>)
    requires Scanned(seen, arg, abbrev, ambiguous, attached) && !Matches(o, arg)
    ensures !(o.long.Some? && IsStemOf(o, arg)) ==> Scanned(seen + [o], arg, abbrev, ambiguous, attached)
    ensures o.long.Some? && IsStemOf(o, arg) ==>
              var unset := NegatedStem(o, arg);
              Scanned(seen + [o], arg, Some(Candidate(|seen|, unset)), ambiguous || abbrev.Some?,
                      if !unset && Attached(arg).Some? then Attached(arg) else attached)
  {
    hide Matches, NegatedStem, Attached, IsStemOf, LeftOver, SeveralStems;
    var all := seen + [o];
    assert forall k :: 0 <= k < |seen| ==> all[k] == seen[k];
    assert forall k: nat :: StemAt(all, k, arg) <==> StemAt(seen, k, arg) || (k == |seen| && StemAt(all, k, arg));
    MoreStems(seen, o, arg);
    MoreLeftOver(seen, o, arg);
    StemLong(o, arg);
  }

  lemma StemLong(o: Opt, arg: string)
    ensures IsStemOf(o, arg) || Matches(o, arg) ==> o.long.Some?
  {
  }

  lemma MoreStems(seen: Table, o: Opt, arg: string)
    ensures SeveralStems(seen + [o], arg)
            <==> SeveralStems(seen, arg) || (StemAt(seen + [o], |seen|, arg) && exists k: nat :: StemAt(seen, k, arg))
  {
    hide IsStemOf;
    var all := seen + [o];
    assert forall k: nat :: k < |seen| ==> (StemAt(all, k, arg) <==> StemAt(seen, k, arg));
    if k: nat :| StemAt(seen, k, arg) && StemAt(all, |seen|, arg) {
      assert StemAt(all, k, arg);
    }
  }

  lemma MoreLeftOver(seen: Table, o: Opt, arg: string)
    ensures LeftOver(seen + [o], arg) == if IsPlainStem(o, arg) then Attached(arg) else LeftOver(seen, arg)
    ensures LeftOver(seen, arg) in {None, Attached(arg)}
  {
    hide IsPlainStem, Attached;
    var all := seen + [o];
    assert forall k :: 0 <= k < |seen| ==> all[k] == seen[k];
    assert all[|seen|] == o;
  }

  lemma ScanEnds(t: Table, arg: string, abbrev: Option<Candidate>, ambiguous: bool, attached: Option<string>)
    requires Scanned(t, arg, abbrev, ambiguous, attached)
    ensures Resolves(t, arg, Select(t, arg, |t|, abbrev, ambiguous, attached))
  {
    hide Matches, IsStemOf, NegatedStem, Attached;
    if abbrev.Some? && !ambiguous {
      OnlyStem(t, abbrev.value.index, arg);
    }
  }

  lemma OnlyStem(t: Table, i: nat, arg: string)
    requires NoMatches(t, arg) && !SeveralStems(t, arg) && StemAt(t, i, arg)
    ensures LeftOver(t, arg) == if NegatedStem(t[i], arg) then None else Attached(arg)
  {
    hide Matches, IsStemOf, NegatedStem, Attached;
    assert forall k: nat :: StemAt(t, k, arg) ==> k == i;
    forall k: nat | k < |t| && IsPlainStem(t[k], arg) ensures k == i {
      StemLong(t[k], arg);
      assert StemAt(t, k, arg);
    }
  }

  lemma {:induction false} ScanResolves(t: Table, arg: string, i: nat, abbrev: Option<Candidate>,
                                        ambiguous: bool, attached: Option<string>)
    requires i <= |t| && (abbrev.Some? ==> abbrev.value.index < |t|)
    requires Scanned(t[..i], arg, abbrev, ambiguous, attached)
    ensures Resolves(t, arg, Select(t, arg, i, abbrev, ambiguous, attached))
    decreases |t| - i
  {
    hide Matches, IsStemOf, NegatedStem, Consider, Scanned, Resolves;
    if i == |t| {
      assert t[..i] == t;
      ScanEnds(t, arg, abbrev, ambiguous, attached);
    } else {
      assert t[..i + 1] == t[..i] + [t[i]];
      EntryVerdict(t[i], arg);
      StemLong(t[i], arg);
      if Matches(t[i], arg) {
        MatchIsFirst(t, arg, i, abbrev, ambiguous, attached);
      } else {
        ScanStep(t[..i], t[i], arg, abbrev, ambiguous, attached);
        if IsStemOf(t[i], arg) {
          var unset := NegatedStem(t[i], arg);
          ScanResolves(t, arg, i + 1, Some(Candidate(i, unset)), ambiguous || abbrev.Some?,
                       if !unset && Attached(arg).Some? then Attached(arg) else attached);
        } else {
          ScanResolves(t, arg, i + 1, abbrev, ambiguous, attached);
        }
      }
    }
  }

  lemma EntryVerdict(o: Opt, arg: string)
    ensures Matches(o, arg) || IsStemOf(o, arg) ==> o.long.Some?
    ensures Matches(o, arg) ==>
              Consider(o, arg) == if o.kind != Argument then Exact(!Names(o, arg), ValueGiven(o, arg))
                                  else if ValueGiven(o, arg).None? then KeepArgument else ArgumentMisused
    ensures !Matches(o, arg) ==> Consider(o, arg) == if IsStemOf(o, arg) then Abbreviates(NegatedStem(o, arg)) else Skip
  {
    hide Consider, ValueGiven, NegatedStem;
    ConsiderEntry(o, arg);
  }

  lemma MatchIsFirst(t: Table, arg: string, i: nat, abbrev: Option<Candidate>, ambiguous: bool,
                     attached: Option<string>)
    requires i < |t| && (abbrev.Some? ==> abbrev.value.index < |t|)
    requires Scanned(t[..i], arg, abbrev, ambiguous, attached) && Matches(t[i], arg)
    ensures Resolves(t, arg, Select(t, arg, i, abbrev, ambiguous, attached))
  {
    hide Names, Negates, IsStemOf, NegatedStem, Consider, Matches, ValueGiven, LeftOver, SeveralStems;
    EntryVerdict(t[i], arg);
    assert forall k :: 0 <= k < i ==> t[..i][k] == t[k];
    assert FirstMatch(t, i, arg);
  }

  /** The resolution of a long name in any table. */
  lemma LongNameResolution(t: Table, arg: string)
    ensures Resolves(t, arg, SelectLong(t, arg, None))
  {
    hide Matches, IsStemOf, NegatedStem, Attached, Resolves;
    assert t[..0] == [];
    ScanResolves(t, arg, 0, None, false, None);
  }

  // ----- does the order of the table matter?

  /** A selection without the position of the entry. */
  datatype Choice =
    | Chosen(o: Opt, unset: bool, attached: Option<string>)
    | ArgumentKept(dangling: Option<string>)
    | ArgumentRefused
    | AmbiguousName
    | UnknownName

  function ChoiceOf(t: Table, arg: string): Choice {
    match SelectLong(t, arg, None)
    case Pick(cand, attached) => Chosen(t[cand.index], cand.unset, attached)
    case PickArgument(dangling) => ArgumentKept(dangling)
    case MisusedArgument => ArgumentRefused
    case Ambiguous => AmbiguousName
    case NoMatch => UnknownName
  }

  /** Every reordering of the table gives every argument the same meaning. */
  ghost predicate OrderIndependent(t: Table) {
    forall t': Table, arg :: multiset(t') == multiset(t) ==> ChoiceOf(t', arg) == ChoiceOf(t, arg)
  }

  /** What a match means when `left` is what earlier stems left over. */
  function MatchChoice(o: Opt, arg: string, left: Option<string>): Choice
    requires o.long.Some?
  {
    var value := ValueGiven(o, arg);
    if o.kind != Argument then Chosen(o, !Names(o, arg), OrElse(value, left))
    else if value.None? then ArgumentKept(left)
    else ArgumentRefused
  }

  /** Both entries match, and do not mean the same by it. */
  predicate Disagree(o: Opt, o': Opt, arg: string) {
    && o.long.Some? && o'.long.Some?
    && Matches(o, arg) && Matches(o', arg)
    && MatchChoice(o, arg, None) != MatchChoice(o', arg, None)
  }

  /** The first entry has a stem that lends its value to the other one, which got none itself. */
  predicate LendsValue(o: Opt, o': Opt, arg: string) {
    && IsPlainStem(o, arg) && Attached(arg).Some?
    && o'.long.Some? && Matches(o', arg) && ValueGiven(o', arg).None?
  }

  predicate ConflictAt(o: Opt, o': Opt, arg: string) {
    Disagree(o, o', arg) || LendsValue(o, o', arg)
  }

  ghost predicate ConflictFree(t: Table) {
    forall o, o', arg :: o in t && o' in t ==> !ConflictAt(o, o', arg)
  }

  lemma CountedTwice(t: Table, i: nat, j: nat)
    requires i < j < |t| && t[i] == t[j]
    ensures multiset(t)[t[i]] >= 2
  {
    assert t == t[..j] + t[j..];
    assert t[..j][i] == t[i] && t[j..][0] == t[i];
    assert t[i] in multiset(t[..j]) && t[i] in multiset(t[j..]);
  }

  lemma CountedOnce(t: Table, k: nat)
    requires k < |t| && forall i :: 0 <= i < |t| && i != k ==> t[i] != t[k]
    ensures multiset(t)[t[k]] == 1
  {
    assert t == t[..k] + [t[k]] + t[k + 1..];
    assert t[k] !in multiset(t[..k]) && t[k] !in multiset(t[k + 1..]);
  }

  lemma SameEntries(t: Table, t': Table)
    requires multiset(t') == multiset(t)
    ensures forall o :: o in t' <==> o in t
  {
    assert forall o :: o in t' <==> o in multiset(t');
    assert forall o :: o in t <==> o in multiset(t);
  }

  lemma ToFront(t: Table, o: Opt) returns (rest: Table)
    requires o in t
    ensures multiset([o] + rest) == multiset(t)
    ensures forall o' :: o' in t && o' != o ==> o' in rest
  {
    var i :| 0 <= i < |t| && t[i] == o;
    rest := t[..i] + t[i + 1..];
    assert t == t[..i] + [t[i]] + t[i + 1..];
  }

  /** The first entry wins when it matches. */
  lemma FirstWins(t: Table, o: Opt, arg: string)
    requires o.long.Some? && Matches(o, arg)
    ensures ChoiceOf([o] + t, arg) == MatchChoice(o, arg, None)
  {
    hide Names, Negates, IsStemOf, NegatedStem, Consider, Matches, Attached, ValueGiven;
    assert ([o] + t)[0] == o;
    EntryVerdict(o, arg);
  }

  /** Behind a stem it takes over the value that it lacks. */
  lemma SecondTakesOver(t: Table, o: Opt, o': Opt, arg: string)
    requires LendsValue(o, o', arg)
    ensures ChoiceOf([o] + ([o'] + t), arg) == MatchChoice(o', arg, Attached(arg))
  {
    hide Names, Negates, IsStemOf, NegatedStem, Consider, Matches, Attached, ValueGiven;
    var t' := [o] + ([o'] + t);
    assert t'[0] == o && t'[1] == o';
    EntryVerdict(o, arg);
    EntryVerdict(o', arg);
    StemLong(o, arg);
    assert SelectLong(t', arg, None) == Select(t', arg, 1, Some(Candidate(0, false)), false, Attached(arg));
  }

  /** A conflict shows when one entry, or the other, is brought to the front. */
  lemma ConflictShows(t: Table, o: Opt, o': Opt, arg: string)
    requires o in t && o' in t && ConflictAt(o, o', arg)
    ensures !OrderIndependent(t)
  {
    hide Names, Negates, IsStemOf, Matches, ChoiceOf, Attached, ValueGiven;
    var rest' := ToFront(t, o');
    FirstWins(rest', o', arg);
    if Disagree(o, o', arg) {
      var rest := ToFront(t, o);
      FirstWins(rest, o, arg);
      assert ChoiceOf([o] + rest, arg) != ChoiceOf([o'] + rest', arg);
    } else {
      var rest := ToFront(rest', o);
      SecondTakesOver(rest, o, o', arg);
      assert multiset([o] + ([o'] + rest)) == multiset([o']) + multiset([o] + rest) == multiset([o'] + rest');
      assert ChoiceOf([o] + ([o'] + rest), arg) != ChoiceOf([o'] + rest', arg);
    }
  }

  ghost predicate AnyMatch(entries: multiset<Opt>, arg: string) {
    exists o :: o in entries && Matches(o, arg)
  }

  ghost predicate AnyStem(entries: multiset<Opt>, arg: string) {
    exists o :: o in entries && IsStemOf(o, arg)
  }

  /** Two entries have the stem, or one that is there twice. */
  ghost predicate TwoStems(entries: multiset<Opt>, arg: string) {
    || (exists o, o' :: o in entries && o' in entries && o != o' && IsStemOf(o, arg) && IsStemOf(o', arg))
    || (exists o :: entries[o] >= 2 && IsStemOf(o, arg))
  }

  function StemChoice(o: Opt, arg: string): Choice
    requires o.long.Some?
  {
    Chosen(o, NegatedStem(o, arg), if NegatedStem(o, arg) then None else Attached(arg))
  }

  /** What an argument means when only the entries are looked at and not their order. */
  ghost predicate Means(entries: multiset<Opt>, arg: string, c: Choice) {
    if AnyMatch(entries, arg) then
      exists o :: o in entries && o.long.Some? && Matches(o, arg) && c == MatchChoice(o, arg, None)
    else if TwoStems(entries, arg) then c == AmbiguousName
    else if AnyStem(entries, arg) then
      exists o :: o in entries && o.long.Some? && IsStemOf(o, arg) && c == StemChoice(o, arg)
    else c == UnknownName
  }

  /** Without conflicts nothing is left over to a match that needs it. */
  lemma NothingLent(t: Table, i: nat, arg: string)
    requires ConflictFree(t) && i < |t| && t[i].long.Some? && Matches(t[i], arg)
    ensures ValueGiven(t[i], arg).None? ==> LeftOver(t[..i], arg) == None
  {
    hide Matches, IsPlainStem, ValueGiven, Attached, Disagree;
    if k :| 0 <= k < i && IsPlainStem(t[..i][k], arg) {
      assert t[k] in t && t[i] in t;
      assert !ConflictAt(t[k], t[i], arg);
    }
  }

  lemma MeaningOfEntries(t: Table, arg: string)
    requires ConflictFree(t)
    ensures Means(multiset(t), arg, ChoiceOf(t, arg))
  {
    hide IsStemOf, NegatedStem, Matches, Attached, ValueGiven, LeftOver, SelectLong, ConflictFree;
    LongNameResolution(t, arg);
    StemsAreEntries(t, arg);
    var r := SelectLong(t, arg, None);
    if !NoMatches(t, arg) {
      var i: nat :| i < |t| && FirstMatch(t, i, arg) && r == MatchSelection(t, i, arg);
      assert t[i] in multiset(t);
      NothingLent(t, i, arg);
    } else if !SeveralStems(t, arg) && AnyStem(multiset(t), arg) {
      var i: nat :| StemAt(t, i, arg) && r == StemSelection(t, i, arg);
      assert t[i] in multiset(t);
    }
  }

  /** The entries with a stem, by position. */
  lemma StemPositions(t: Table, i: nat, arg: string)
    requires i < |t|
    ensures StemAt(t, i, arg) <==> IsStemOf(t[i], arg)
    ensures t[i] in multiset(t)
  {
    StemLong(t[i], arg);
  }

  lemma PositionOf(t: Table, o: Opt, arg: string) returns (i: nat)
    requires o in multiset(t) && IsStemOf(o, arg)
    ensures i < |t| && t[i] == o && StemAt(t, i, arg)
  {
    assert o in t;
    i :| i < |t| && t[i] == o;
    StemLong(o, arg);
  }

  lemma SeveralAreTwo(t: Table, arg: string)
    requires SeveralStems(t, arg)
    ensures TwoStems(multiset(t), arg)
  {
    hide IsStemOf;
    var j: nat, k: nat :| j < k < |t| && StemAt(t, j, arg) && StemAt(t, k, arg);
    if t[j] == t[k] {
      CountedTwice(t, j, k);
    }
  }

  lemma TwoAreSeveral(t: Table, arg: string)
    requires TwoStems(multiset(t), arg)
    ensures SeveralStems(t, arg)
  {
    hide IsStemOf, StemAt;
    if o, o' :| o in multiset(t) && o' in multiset(t) && o != o' && IsStemOf(o, arg) && IsStemOf(o', arg) {
      var j := PositionOf(t, o, arg);
      var k := PositionOf(t, o', arg);
      assert j < k || k < j;
    } else {
      var o :| multiset(t)[o] >= 2 && IsStemOf(o, arg);
      var j := PositionOf(t, o, arg);
      if forall i :: 0 <= i < |t| && i != j ==> t[i] != t[j] {
        CountedOnce(t, j);
      }
      var k: nat :| k < |t| && k != j && t[k] == o;
      StemPositions(t, k, arg);
      assert j < k || k < j;
    }
  }

  lemma StemsAreEntries(t: Table, arg: string)
    ensures NoMatches(t, arg) <==> !AnyMatch(multiset(t), arg)
    ensures SeveralStems(t, arg) <==> TwoStems(multiset(t), arg)
    ensures AnyStem(multiset(t), arg) <==> exists i: nat :: StemAt(t, i, arg)
  {
    hide Matches, IsStemOf, SeveralStems, TwoStems;
    assert forall o :: o in multiset(t) <==> o in t;
    forall i: nat | i < |t| ensures StemAt(t, i, arg) <==> IsStemOf(t[i], arg) {
      StemPositions(t, i, arg);
    }
    if SeveralStems(t, arg) {
      SeveralAreTwo(t, arg);
    }
    if TwoStems(multiset(t), arg) {
      TwoAreSeveral(t, arg);
    }
  }

  lemma OneMeaning(t: Table, arg: string, c: Choice, c': Choice)
    requires ConflictFree(t) && Means(multiset(t), arg, c) && Means(multiset(t), arg, c')
    ensures c == c'
  {
    hide IsStemOf, NegatedStem, Matches, Attached, MatchChoice, StemChoice, LendsValue;
    assert forall o :: o in multiset(t) <==> o in t;
    forall o, o' | o in t && o' in t && o.long.Some? && o'.long.Some? && Matches(o, arg) && Matches(o', arg)
      ensures MatchChoice(o, arg, None) == MatchChoice(o', arg, None)
    {
      assert !ConflictAt(o, o', arg);
    }
  }

  /** Without conflicts a match decides, wherever it stands in the table. */
  lemma MatchWins(t: Table, i: nat, arg: string)
    requires ConflictFree(t) && i < |t| && t[i].long.Some? && Matches(t[i], arg)
    ensures ChoiceOf(t, arg) == MatchChoice(t[i], arg, None)
  {
    hide IsStemOf, Matches, MatchChoice, StemChoice, LendsValue, ChoiceOf, TwoStems;
    MeaningOfEntries(t, arg);
    assert t[i] in multiset(t);
    var o :| o in multiset(t) && o.long.Some? && Matches(o, arg) && ChoiceOf(t, arg) == MatchChoice(o, arg, None);
    assert o in t && t[i] in t && !ConflictAt(o, t[i], arg);
  }

  /** The order of a table matters exactly when two of its entries are in conflict. */
  lemma OrderMattersExactlyOnConflict(t: Table)
    ensures OrderIndependent(t) <==> ConflictFree(t)
  {
    hide ConflictAt, ChoiceOf, Means;
    if o, o', arg :| o in t && o' in t && ConflictAt(o, o', arg) {
      ConflictShows(t, o, o', arg);
    } else {
      forall t': Table, arg | multiset(t') == multiset(t)
        ensures ChoiceOf(t', arg) == ChoiceOf(t, arg)
      {
        SameEntries(t, t');
        MeaningOfEntries(t, arg);
        MeaningOfEntries(t', arg);
        OneMeaning(t, arg, ChoiceOf(t, arg), ChoiceOf(t', arg));
      }
    }
  }

  // ----- finding the conflicts of a table

  /** The texts that can be the form of an argument for this entry. */
  function Forms(o: Opt): set<string> {
    if o.long.None? then {}
    else
      var name := o.long.value;
      {name, "no-" + name} + if "no-" <= name then {name[3..]} else {}
  }

  /** No two entries are in conflict about one of their own forms; this can be looked up. */
  predicate NoConflictInForms(t: Table) {
    forall o, o' :: o in t && o' in t ==> forall arg :: arg in Forms(o) + Forms(o') ==> !ConflictAt(o, o', arg)
  }

  lemma SaysLonger(form: string, form': string, arg: string)
    requires Says(form, arg) && Says(form', arg) && |form| <= |form'|
    ensures Says(form, form')
  {
    assert form == arg[..|form|] == form'[..|form|];
  }

  lemma MatchByForm(o: Opt, arg: string)
    requires o.long.Some? && Matches(o, arg)
    ensures Says(FormOf(o, arg), arg) && FormOf(o, arg) in Forms(o)
    ensures forall arg' :: Says(FormOf(o, arg), arg') ==> Matches(o, arg')
  {
    hide Repeating;
  }

  /** When two entries disagree, they do so about the longer one of the forms that were said. */
  lemma DisagreeAboutForm(o: Opt, o': Opt, arg: string)
    requires Disagree(o, o', arg) && |FormOf(o, arg)| <= |FormOf(o', arg)|
    ensures Disagree(o, o', FormOf(o', arg)) && Disagree(o', o, FormOf(o', arg))
    ensures FormOf(o', arg) in Forms(o')
  {
    hide Negates, Names, Forms;
    MatchByForm(o, arg);
    MatchByForm(o', arg);
    var form := FormOf(o', arg);
    SaysLonger(FormOf(o, arg), form, arg);
    assert Says(form, form);
    assert Matches(o, form) && Matches(o', form);
    if o.kind == Argument && o'.kind == Argument {
      ArgumentsByName(o, arg);
      ArgumentsByName(o', arg);
      assert |form| == |arg| ==> form == arg;
    }
  }

  lemma ArgumentsByName(o: Opt, arg: string)
    requires o.long.Some? && o.kind == Argument && Matches(o, arg)
    ensures FormOf(o, arg) == o.long.value
    ensures MatchChoice(o, arg, None) == if |arg| == |o.long.value| then ArgumentKept(None) else ArgumentRefused
  {
  }

  /** Every conflict shows at a form of one of the two entries. */
  lemma ConflictShowsInForms(o: Opt, o': Opt, arg: string)
    requires ConflictAt(o, o', arg)
    ensures exists form :: form in Forms(o) + Forms(o') && ConflictAt(o, o', form)
  {
    hide Negates, Names, Forms, IsStemOf, NegatedStem, MatchChoice;
    if LendsValue(o, o', arg) {
      MatchByForm(o', arg);
      assert FormOf(o', arg) == arg;
    } else if |FormOf(o, arg)| <= |FormOf(o', arg)| {
      DisagreeAboutForm(o, o', arg);
      assert ConflictAt(o, o', FormOf(o', arg));
    } else {
      DisagreeAboutForm(o', o, arg);
      assert ConflictAt(o, o', FormOf(o, arg));
    }
  }

  /** So whether the order of a table matters can be decided. */
  lemma ConflictsAreInForms(t: Table)
    ensures OrderIndependent(t) <==> NoConflictInForms(t)
  {
    hide OrderIndependent, ConflictAt, Forms;
    OrderMattersExactlyOnConflict(t);
    if o, o', arg :| o in t && o' in t && ConflictAt(o, o', arg) {
      ConflictShowsInForms(o, o', arg);
    }
  }

  // ----- the conflicts in terms of the names

  predicate NoEqualsSigns(t: Table) {
    forall o :: o in t && o.long.Some? ==> '=' !in o.long.value
  }

  /** The first entry has the longer name, or the same one. */
  predicate Clash(o: Opt, o': Opt) {
    && o.long.Some? && o'.long.Some?
    && var (name, name') := (o.long.value, o'.long.value);
       || (name == name' && o != o' && (o.kind != Argument || o'.kind != Argument))
       || (name == "no-" + name' && (o.kind != Argument || (o'.kind != Argument && !Repeating(name'))))
       || (name == "no-no-" + name' && o.kind != Argument && o'.kind != Argument && !Repeating(name'))
  }

  lemma ClashIsConflict(o: Opt, o': Opt)
    requires Clash(o, o')
    ensures exists arg :: Disagree(o, o', arg)
  {
    hide Repeating;
    var (name, name') := (o.long.value, o'.long.value);
    if name == name' {
      assert Disagree(o, o', name);
    } else if name == "no-" + name' {
      assert name[3..] == name';
      if o.kind != Argument {
        assert Disagree(o, o', name');
      } else {
        assert Disagree(o, o', name);
      }
    } else {
      var arg := "no-" + name';
      assert name == "no-" + arg && name[3..] == arg;
      assert Disagree(o, o', arg);
    }
  }

  /** A form without `=` is the argument up to its first `=`. */
  lemma OneForm(form: string, form': string, arg: string)
    requires '=' !in form && '=' !in form' && Says(form, arg) && Says(form', arg)
    ensures form == form'
  {
    assert forall k :: 0 <= k < |form| ==> arg[k] == form[k];
    assert forall k :: 0 <= k < |form'| ==> arg[k] == form'[k];
  }

  lemma FormLetters(o: Opt, arg: string)
    requires o.long.Some? && '=' !in o.long.value
    ensures '=' !in FormOf(o, arg)
  {
  }

  /** How the form that was said relates to the name. */
  lemma FormCases(o: Opt, arg: string)
    requires o.long.Some? && Matches(o, arg)
    ensures var (name, form) := (o.long.value, FormOf(o, arg));
            || form == name
            || (o.kind != Argument && name == "no-" + form)
            || (o.kind != Argument && form == "no-" + name && !Repeating(name))
  {
    hide Repeating;
    var name := o.long.value;
    assert "no-" <= name ==> name == "no-" + name[3..];
  }

  lemma ConflictIsClash(o: Opt, o': Opt, arg: string)
    requires ConflictAt(o, o', arg)
    requires o.long.Some? ==> '=' !in o.long.value
    requires o'.long.Some? ==> '=' !in o'.long.value
    ensures Clash(o, o') || Clash(o', o)
  {
    hide Matches, FormOf, Repeating, IsPlainStem, Attached;
    if Disagree(o, o', arg) {
      MatchByForm(o, arg);
      MatchByForm(o', arg);
      FormLetters(o, arg);
      FormLetters(o', arg);
      OneForm(FormOf(o, arg), FormOf(o', arg), arg);
      SameFormClashes(o, o', FormOf(o, arg), arg);
    } else {
      MatchByForm(o', arg);
      FormLetters(o', arg);
      assert FormOf(o', arg) == arg;
      NothingAttached(arg);
    }
  }

  lemma NothingAttached(arg: string)
    requires '=' !in arg
    ensures Attached(arg) == None
  {
  }

  lemma SameFormClashes(o: Opt, o': Opt, form: string, arg: string)
    requires Disagree(o, o', arg) && FormOf(o, arg) == form == FormOf(o', arg)
    ensures Clash(o, o') || Clash(o', o)
  {
    hide FormOf, Matches, Repeating;
    FormCases(o, arg);
    FormCases(o', arg);
    var (name, name') := (o.long.value, o'.long.value);
    assert "no-no-" + name == "no-" + ("no-" + name) && "no-no-" + name' == "no-" + ("no-" + name');
    assert ("no-" + name)[3..] == name && ("no-" + name')[3..] == name';
    if o.kind == Argument && o'.kind == Argument {
      ArgumentsByName(o, arg);
      ArgumentsByName(o', arg);
    }
  }

  /** Without `=` in a name, whether the order matters can be read off the names. */
  lemma OrderMattersExactlyOnClash(t: Table)
    requires NoEqualsSigns(t)
    ensures OrderIndependent(t) <==> forall o, o' :: o in t && o' in t ==> !Clash(o, o')
  {
    hide Clash, OrderIndependent, ConflictAt;
    OrderMattersExactlyOnConflict(t);
    if o, o' :| o in t && o' in t && Clash(o, o') {
      ClashIsConflict(o, o');
      var arg :| Disagree(o, o', arg);
      assert ConflictAt(o, o', arg) by {
        DisagreeIsConflict(o, o', arg);
      }
    }
    if o, o', arg :| o in t && o' in t && ConflictAt(o, o', arg) {
      ConflictIsClash(o, o', arg);
    }
  }

  lemma DisagreeIsConflict(o: Opt, o': Opt, arg: string)
    requires Disagree(o, o', arg)
    ensures ConflictAt(o, o', arg)
  {
  }

  /** Not every name that starts with `no-` does harm: `no-foo` does beside `foo`, and `no-no-foo`
      too, but none does beside `bar`. */
  lemma HarmfulNegativeNames(foo: Opt, nofoo: Opt, nonofoo: Opt, bar: Opt)
    requires foo.long == Some("foo") && nofoo.long == Some("no-foo")
    requires nonofoo.long == Some("no-no-foo") && bar.long == Some("bar")
    requires Argument !in {foo.kind, nofoo.kind, nonofoo.kind, bar.kind}
    ensures !OrderIndependent([foo, nofoo]) && !OrderIndependent([foo, nonofoo])
    ensures OrderIndependent([bar, nofoo]) && OrderIndependent([bar, nonofoo])
  {
    hide OrderIndependent;
    assert "no-foo" == "no-" + "foo" && "no-no-foo" == "no-no-" + "foo";
    assert "foo"[0] != ("no-" + "foo")[0];
    assert Clash(nofoo, foo) && Clash(nonofoo, foo);
    forall o | o in [nofoo, nonofoo] ensures !Clash(o, bar) && !Clash(bar, o) && !Clash(o, o) {
      BarIsNoFoo(o, bar);
      NotWithItself(o);
    }
    NotWithItself(bar);
    OrderMattersExactlyOnClash([foo, nofoo]);
    OrderMattersExactlyOnClash([foo, nonofoo]);
    OrderMattersExactlyOnClash([bar, nofoo]);
    OrderMattersExactlyOnClash([bar, nonofoo]);
  }

  lemma NotWithItself(o: Opt)
    ensures !Clash(o, o)
  {
    assert o.long.Some? ==> |"no-" + o.long.value| != |o.long.value| && |"no-no-" + o.long.value| != |o.long.value|;
  }

  lemma BarIsNoFoo(o: Opt, bar: Opt)
    requires o.long in {Some("no-foo"), Some("no-no-foo")} && bar.long == Some("bar")
    ensures !Clash(o, bar) && !Clash(bar, o)
  {
    assert o.long.value[0] == 'n' && o.long.value[3] in {'f', 'n'};
    assert forall s :: ("no-" + s) != "bar" && ("no-no-" + s) != "bar" by {
      assert forall s :: ("no-" + s)[0] == 'n' && ("no-no-" + s)[0] == 'n';
    }
    assert ("no-" + "bar")[3] == 'b';
    assert ("no-no-" + "bar")[6] == 'b';
  }

  /** With `=` in a name an entry can lend its value: behind the entry `ab`, the argument `a=b`
      gives the entry `a=b` the value b, and in front of it none. */
  lemma EqualsSignInName(ab: Opt, a_b: Opt)
    requires ab.long == Some("ab") && a_b.long == Some("a=b") && Argument !in {ab.kind, a_b.kind}
    ensures ChoiceOf([ab, a_b], "a=b") == Chosen(a_b, false, Some("b"))
    ensures ChoiceOf([a_b, ab], "a=b") == Chosen(a_b, false, None)
    ensures !OrderIndependent([ab, a_b])
  {
    hide OrderIndependent;
    var arg := "a=b";
    assert StemLength(arg[1..]) == 0 && StemLength(arg) == 1;
    assert arg[2..] == "b" && arg[..1] == "a" && arg[3..] == "";
    assert "ab"[..1] == "a" && "ab"[1] != arg[1];
    assert Attached(arg) == Some("b") && LendsValue(ab, a_b, arg);
    SecondTakesOver([], ab, a_b, arg);
    FirstWins([ab], a_b, arg);
    assert [ab] + ([a_b] + []) == [ab, a_b] && [a_b] + [ab] == [a_b, ab];
    ConflictShows([ab, a_b], ab, a_b, arg);
  }

  // ----- negation

  /** `--no-` and the name of an option negates it exactly when the name does not repeat itself
      and no earlier entry matches. Without conflicts only the names "", n, no and no-, and longer
      repetitions of `no-`, cannot be negated. */
  lemma NegationWorks(t: Table, i: nat)
    requires i < |t| && t[i].long.Some? && t[i].kind != Argument
    ensures var name := t[i].long.value;
            var sel := SelectLong(t, "no-" + name, None);
            && (sel.Pick? && sel.cand == Candidate(i, true)
                <==> !Repeating(name) && forall k :: 0 <= k < i ==> !Matches(t[k], "no-" + name))
            && (ConflictFree(t) ==>
                  (sel.Pick? && t[sel.cand.index] == t[i] && sel.cand.unset && sel.attached == None
                   <==> !Repeating(name)))
            && (!("no-" <= name) ==> (Repeating(name) <==> name <= "no-"))
  {
    hide SelectLong, Matches, ConflictFree, LeftOver, StemAt, SeveralStems;
    var name := t[i].long.value;
    var arg := "no-" + name;
    NegatedArgument(t[i]);
    LongNameResolution(t, arg);
    assert Matches(t[i], arg) ==> (forall k :: 0 <= k < i ==> !Matches(t[k], arg)) ==> FirstMatch(t, i, arg);
    if ConflictFree(t) && Matches(t[i], arg) {
      MatchWins(t, i, arg);
    }
    if !Matches(t[i], arg) {
      NeitherPicks(t, t[i], arg);
    }
  }

  /** Only an entry that matches or has a stem can be picked. */
  lemma NeitherPicks(t: Table, o: Opt, arg: string)
    requires !Matches(o, arg) && !IsStemOf(o, arg)
    ensures var sel := SelectLong(t, arg, None);
            sel.Pick? ==> t[sel.cand.index] != o
  {
    hide Matches, IsStemOf, NegatedStem, LeftOver, SelectLong, ValueGiven;
    LongNameResolution(t, arg);
  }

  lemma NegatedArgument(o: Opt)
    requires o.long.Some? && o.kind != Argument
    ensures var arg := "no-" + o.long.value;
            && !Names(o, arg)
            && (Matches(o, arg) <==> !Repeating(o.long.value))
            && (Repeating(o.long.value) ==> !IsStemOf(o, arg))
            && (Matches(o, arg) ==> ValueGiven(o, arg) == None)
  {
    var name := o.long.value;
    var arg := "no-" + name;
    if name <= arg {
      PrefixIsNoNegation(name, arg);
    }
    if "no-" <= name && Says(name[3..], arg) {
      NoRepetitionInside(name);
    }
  }
}
