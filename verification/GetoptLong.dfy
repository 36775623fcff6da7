/** getopt_long in permute mode (compat/getopt/getopt_long.c): a state machine over optind, place and the
    two ends of the block of skipped non-options, which persist from call to call. */
module GetoptLong {
  import opened Options
  import PermuteArgs

  /** What the scanner distinguishes about an argument.  An option is reported once for its first letter
      and once for each of the more letters after it; the last report may take the next argument. */
  datatype Element =
    | NonOption(text: string)
    | DashDash
    | Opt(text: string, more: nat, takesNext: bool)

  datatype Report = Report(opt: Element, arg: Option<Element>)

  /** How many arguments the option at the head of s consumes; a missing argument consumes nothing. */
  ghost function Taken(s: seq<Element>): (k: nat)
    requires s != [] && s[0].Opt?
    ensures 1 <= k <= |s|
  {
    if s[0].takesNext && |s| >= 2 then 2 else 1
  }

  ghost function ArgOf(s: seq<Element>): Option<Element>
    requires s != [] && s[0].Opt?
  {
    if Taken(s) == 2 then Some(s[1]) else None
  }

  /** What a scan that never moved anything would consume as options, skip, and leave after "--". */
  datatype Split = Split(opts: seq<Element>, nonopts: seq<Element>, rest: seq<Element>)

  ghost function SplitOf(s: seq<Element>): Split {
    if s == [] then Split([], [], [])
    else match s[0]
      case NonOption(_) => var r := SplitOf(s[1..]); Split(r.opts, [s[0]] + r.nonopts, r.rest)
      case DashDash => Split([s[0]], [], s[1..])
      case Opt(_, _, _) => var r := SplitOf(s[Taken(s)..]); Split(s[..Taken(s)] + r.opts, r.nonopts, r.rest)
  }

  /** The reports still due when letters of the option at the head of s are left (0: not looked at yet). */
  ghost function Due(s: seq<Element>, letters: nat): seq<Report>
    requires letters > 0 ==> s != [] && s[0].Opt?
    decreases |s|, if letters == 0 then 1 else 0, letters
  {
    if letters > 1 then [Report(s[0], None)] + Due(s, letters - 1)
    else if letters == 1 then [Report(s[0], ArgOf(s))] + Due(s[Taken(s)..], 0)
    else if s == [] then []
    else match s[0]
      case NonOption(_) => Due(s[1..], 0)
      case DashDash => []
      case Opt(_, more, _) => Due(s, more + 1)
  }

  class Scanner {
    const nargv: array<Element>
    ghost const first: nat  // where scanning started: optind is 1 then
    var optind: nat
    var place: nat  // letters left in nargv[optind]; 0 stands for EMSG
    var nonoptStart: int
    var nonoptEnd: int

    constructor (nargv: array<Element>, start: nat)
      requires start <= nargv.Length
      ensures Valid() && this.nargv == nargv && first == optind == start
      ensures Opts() == [] && NonOpts() == [] && place == 0
    {
      this.nargv, first, optind, place := nargv, start, start, 0;
      nonoptStart, nonoptEnd := -1, -1;
    }

    ghost predicate Valid()
      reads this, nargv
    {
      && first <= optind <= nargv.Length
      && (nonoptStart == -1 ==> nonoptEnd == -1)
      && (nonoptStart != -1 ==> first <= nonoptStart < optind)
      && (nonoptEnd != -1 ==> nonoptStart < nonoptEnd <= optind && (nonoptEnd == optind ==> place > 0))
      && (place > 0 ==> optind < nargv.Length && nargv[optind].Opt? && place <= nargv[optind].more + 1)
      && (place > 0 && nonoptStart != -1 ==> nonoptEnd != -1)
    }

    /** The skipped block is Lo()..Hi(); on both sides of it stand consumed options. */
    ghost function Lo(): int
      reads this
    {
      if nonoptStart == -1 then optind else nonoptStart
    }

    ghost function Hi(): int
      reads this
    {
      if nonoptEnd == -1 then optind else nonoptEnd
    }

    ghost function Opts(): seq<Element>
      requires Valid()
      reads this, nargv
    {
      nargv[first..Lo()] + nargv[Hi()..optind]
    }

    ghost function NonOpts(): seq<Element>
      requires Valid()
      reads this, nargv
    {
      nargv[Lo()..Hi()]
    }

    /** The final nargv, and where its non-options start. */
    ghost function Goal(): seq<Element>
      requires Valid()
      reads this, nargv
    {
      var r := SplitOf(nargv[optind..]);
      nargv[..first] + (Opts() + r.opts) + (NonOpts() + r.nonopts) + r.rest
    }

    ghost function GoalIndex(): int
      requires Valid()
      reads this, nargv
    {
      first + |Opts() + SplitOf(nargv[optind..]).opts|
    }

    ghost function StillDue(): seq<Report>
      requires Valid()
      reads this, nargv
    {
      Due(nargv[optind..], place)
    }

    /** Lines 356 to 369 and 417 to 422: the last permutation, and optind moves back over what it skipped. */
    method Settle()
      requires Valid() && place == 0
      modifies this, nargv
      ensures nargv[..] == old(nargv[..first] + Opts() + NonOpts() + nargv[optind..])
      ensures optind == first + |old(Opts())|
      ensures nonoptStart == nonoptEnd == -1 && place == 0
    {
      assert nargv[..Lo()] == nargv[..first] + nargv[first..Lo()];
      assert nargv[..first] + Opts() == nargv[..Lo()] + nargv[Hi()..optind];
      if nonoptEnd != -1 {
        PermuteArgs.Permute(nonoptStart, nonoptEnd, optind, nargv);
        optind := optind - (nonoptEnd - nonoptStart);
      } else if nonoptStart != -1 {
        optind := nonoptStart;
      }
      nonoptStart, nonoptEnd := -1, -1;
    }

    /** Lines 354 to 371: the end of the argument vector. */
    method AtEnd()
      requires Valid() && place == 0 && optind == nargv.Length
      modifies this, nargv
      ensures nargv[..] == old(Goal()) && optind == old(GoalIndex()) && old(StillDue()) == []
      ensures nonoptStart == nonoptEnd == -1 && place == 0
    {
      hide Opts, NonOpts, SplitOf, Due;
      EndSplit(nargv[optind..]);
      Settle();
    }

    /** Lines 390 to 400: the new non-option joins the skipped block, which first moves behind the
        options that follow it. */
    method JoinSkipped()
      requires Valid() && place == 0 && optind < nargv.Length
      modifies this, nargv
      ensures Valid() && place == 0 && optind == old(optind) + 1
      ensures nargv[..first] == old(nargv[..first]) && nargv[optind..] == old(nargv[optind + 1..])
      ensures Opts() == old(Opts()) && NonOpts() == old(NonOpts() + [nargv[optind]])
    {
      ghost var last := [nargv[optind]];
      if nonoptStart == -1 {
        nonoptStart := optind;
      } else if nonoptEnd != -1 {
        Gather();
        nonoptStart := optind - (nonoptEnd - nonoptStart);
        nonoptEnd := -1;
      }
      assert nargv[nonoptStart..optind + 1] == nargv[nonoptStart..optind] + last;
      optind := optind + 1;
    }

    /** The permutation of line 394 alone. */
    method Gather()
      requires Valid() && place == 0 && nonoptEnd != -1
      modifies nargv
      ensures nargv[..first] == old(nargv[..first]) && nargv[optind..] == old(nargv[optind..])
      ensures nargv[first..optind - (nonoptEnd - nonoptStart)] == old(Opts())
      ensures nargv[optind - (nonoptEnd - nonoptStart)..optind] == old(NonOpts())
    {
      PermuteArgs.Permute(nonoptStart, nonoptEnd, optind, nargv);
    }

    /** Lines 390 to 402. */
    method SkipNonOption()
      requires Valid() && place == 0 && optind < nargv.Length && nargv[optind].NonOption?
      modifies this, nargv
      ensures Valid() && place == 0 && optind == old(optind) + 1
      ensures Goal() == old(Goal()) && GoalIndex() == old(GoalIndex()) && StillDue() == old(StillDue())
    {
      hide Opts, NonOpts, SplitOf, Due;
      ghost var s := nargv[optind..];
      SkippedSplit(s, Opts(), NonOpts());
      JoinSkipped();
      assert nargv[optind..] == s[1..];
    }

    /** k arguments are consumed: they follow the options behind the skipped block. */
    method Consume(k: nat)
      requires Valid() && place <= 1 && (nonoptStart != -1 ==> nonoptEnd != -1)
      requires 1 <= k && optind + k <= nargv.Length
      modifies this
      ensures Valid() && place == 0 && optind == old(optind) + k
      ensures Opts() == old(Opts() + nargv[optind..optind + k]) && NonOpts() == old(NonOpts())
    {
      if nonoptEnd == -1 {
        Extend(nargv[..], first, first, optind, k);
      } else {
        Extend(nargv[..], first, nonoptEnd, optind, k);
      }
      place := 0;
      optind := optind + k;
    }

    /** Line 405: an option ends the block of skipped non-options. */
    method CloseSkipped(letters: nat)
      requires Valid() && place == 0 && optind < nargv.Length
      requires letters > 0 && (nargv[optind].Opt? && letters == nargv[optind].more + 1)
      modifies this
      ensures Valid() && place == letters && optind == old(optind) && (nonoptStart != -1 ==> nonoptEnd != -1)
      ensures Opts() == old(Opts()) && NonOpts() == old(NonOpts())
    {
      if nonoptStart != -1 && nonoptEnd == -1 {
        nonoptEnd := optind;
      }
      place := letters;
    }

    /** Lines 404 to 424 for "--": it is consumed like an option and ends the scan. */
    method AtDashDash()
      requires Valid() && place == 0 && optind < nargv.Length && nargv[optind].DashDash?
      modifies this, nargv
      ensures nargv[..] == old(Goal()) && optind == old(GoalIndex()) && old(StillDue()) == []
      ensures nonoptStart == nonoptEnd == -1 && place == 0
    {
      hide SplitOf, Due, NonOpts, Opts;
      ghost var s := nargv[optind..];
      DashDashSplit(s, NonOpts());
      ConsumeDashDash();
      assert nargv[optind..] == s[1..];
      Settle();
    }

    method ConsumeDashDash()
      requires Valid() && place == 0 && optind < nargv.Length
      modifies this
      ensures Valid() && place == 0 && optind == old(optind) + 1
      ensures Opts() == old(Opts() + [nargv[optind]]) && NonOpts() == old(NonOpts())
    {
      ghost var last := [nargv[optind]];
      assert nargv[Hi()..optind + 1] == nargv[Hi()..optind] + last;
      assert nargv[first..optind + 1] == nargv[first..optind] + last;
      if nonoptStart != -1 && nonoptEnd == -1 {
        nonoptEnd := optind;
      }
      optind := optind + 1;
    }

    /** The letters of an option are put in place. */
    method EnterOption()
      requires Valid() && place == 0 && optind < nargv.Length && nargv[optind].Opt?
      modifies this
      ensures Valid() && place > 0 && optind == old(optind)
      ensures Goal() == old(Goal()) && GoalIndex() == old(GoalIndex()) && StillDue() == old(StillDue())
    {
      hide SplitOf, Opts, NonOpts;
      CloseSkipped(nargv[optind].more + 1);
    }

    /** One letter of the option in place is reported; its last letter moves optind past the option and
        past the argument it takes, if there is one. */
    method ReportLetter() returns (r: Report)
      requires Valid() && place > 0
      modifies this
      ensures Valid() && (optind > old(optind) || (optind == old(optind) && 0 < place < old(place)))
      ensures Goal() == old(Goal()) && GoalIndex() == old(GoalIndex())
      ensures old(StillDue()) == [r] + StillDue()
    {
      hide SplitOf, Opts, NonOpts;
      ghost var s := nargv[optind..];
      var e := nargv[optind];
      if place > 1 {
        OneLetterLess();
        return Report(e, None);
      }
      OptionSplit(s, Opts());
      var k := if e.takesNext && optind + 1 < nargv.Length then 2 else 1;
      r := Report(e, if k == 2 then Some(nargv[optind + 1]) else None);
      assert nargv[optind..optind + k] == s[..k];
      Consume(k);
      assert nargv[optind..] == s[k..];
    }

    method OneLetterLess()
      requires Valid() && place > 1
      modifies this
      ensures Valid() && place == old(place) - 1 && optind == old(optind)
      ensures Opts() == old(Opts()) && NonOpts() == old(NonOpts())
    {
      place := place - 1;
    }

    /** getopt_internal: one call.  None stands for -1, the end of the options. */
    method Call() returns (r: Option<Report>)
      requires Valid()
      modifies this, nargv
      ensures r.Some? ==> Valid() && Goal() == old(Goal()) && GoalIndex() == old(GoalIndex())
      ensures r.Some? ==> old(StillDue()) == [r.value] + StillDue()
      ensures r.Some? ==> optind > old(optind) || (optind == old(optind) && old(place) == 0 < place)
                          || (optind == old(optind) && 0 < place < old(place))
      ensures r.None? ==> nargv[..] == old(Goal()) && optind == old(GoalIndex()) && old(StillDue()) == []
      ensures r.None? ==> nonoptStart == nonoptEnd == -1 && place == 0
    {
      hide SplitOf, Due;
      while place == 0
        invariant Valid() && Goal() == old(Goal()) && GoalIndex() == old(GoalIndex()) && StillDue() == old(StillDue())
        invariant optind > old(optind) || (optind == old(optind) && (place == old(place) || old(place) == 0 < place))
        decreases nargv.Length - optind, if place == 0 then 1 else 0
      {
        if optind >= nargv.Length {
          AtEnd();
          return None;
        }
        match nargv[optind] {
          case NonOption(_) => SkipNonOption();
          case DashDash =>
            AtDashDash();
            return None;
          case Opt(_, _, _) => EnterOption();
        }
      }
      var report := ReportLetter();
      r := Some(report);
    }
  }

  lemma Extend(v: seq<Element>, first: nat, hi: nat, o: nat, k: nat)
    requires first <= hi <= o && o + k <= |v|
    ensures v[hi..o + k] == v[hi..o] + v[o..o + k]
    ensures forall a: seq<Element> :: a + v[hi..o + k] == (a + v[hi..o]) + v[o..o + k]
  {
    assert v[hi..o + k] == v[hi..o] + v[o..o + k];
  }

  lemma SkippedSplit(s: seq<Element>, opts: seq<Element>, skipped: seq<Element>)
    requires s != [] && s[0].NonOption?
    ensures var r, t := SplitOf(s), SplitOf(s[1..]);
            opts + r.opts == opts + t.opts && skipped + r.nonopts == (skipped + [s[0]]) + t.nonopts && r.rest == t.rest
    ensures Due(s, 0) == Due(s[1..], 0)
  {
  }

  lemma DashDashSplit(s: seq<Element>, skipped: seq<Element>)
    requires s != [] && s[0].DashDash?
    ensures SplitOf(s) == Split([s[0]], [], s[1..]) && Due(s, 0) == [] && skipped + [] == skipped
  {
  }

  lemma EndSplit(s: seq<Element>)
    requires s == []
    ensures SplitOf(s) == Split([], [], []) && Due(s, 0) == []
  {
  }

  lemma OptionSplit(s: seq<Element>, opts: seq<Element>)
    requires s != [] && s[0].Opt?
    ensures var r, t := SplitOf(s), SplitOf(s[Taken(s)..]);
            opts + r.opts == (opts + s[..Taken(s)]) + t.opts && r.nonopts == t.nonopts && r.rest == t.rest
  {
    var t := SplitOf(s[Taken(s)..]);
    assert SplitOf(s) == Split(s[..Taken(s)] + t.opts, t.nonopts, t.rest);
    hide SplitOf, Taken;
  }

  /** A whole run, until -1: options with their arguments first, then the non-options, each group in its
      old order, then whatever followed "--"; optind is left at the first non-option; and the options are
      reported in order, each with the argument that followed it before anything moved. */
  method Run(nargv: array<Element>, first: nat) returns (reports: seq<Report>, optind: nat)
    requires first <= nargv.Length
    modifies nargv
    ensures var r := SplitOf(old(nargv[first..]));
            nargv[..] == old(nargv[..first]) + r.opts + r.nonopts + r.rest && optind == first + |r.opts|
    ensures reports == Due(old(nargv[first..]), 0)
  {
    hide SplitOf, Due;
    var scanner := new Scanner(nargv, first);
    ghost var goal, index, all := scanner.Goal(), scanner.GoalIndex(), scanner.StillDue();
    GoalAtStart(scanner);
    reports := [];
    while true
      invariant scanner.nargv == nargv && fresh(scanner)
      invariant scanner.Valid() && scanner.Goal() == goal && scanner.GoalIndex() == index
      invariant all == reports + scanner.StillDue()
      decreases nargv.Length - scanner.optind, if scanner.place == 0 then 1 else 0, scanner.place
    {
      var r := scanner.Call();
      if r.None? {
        return reports, scanner.optind;
      }
      reports := reports + [r.value];
    }
  }

  lemma GoalAtStart(s: Scanner)
    requires s.Valid() && s.optind == s.first && s.Opts() == [] && s.NonOpts() == []
    ensures var r := SplitOf(s.nargv[s.first..]);
            s.Goal() == s.nargv[..s.first] + r.opts + r.nonopts + r.rest && s.GoalIndex() == s.first + |r.opts|
  {
  }

  /** The two groups and the rest are a rearrangement of the arguments. */
  lemma {:induction false} SplitPermutes(s: seq<Element>)
    ensures var r := SplitOf(s); multiset(r.opts) + multiset(r.nonopts) + multiset(r.rest) == multiset(s)
  {
    if s == [] {
    } else if s[0].Opt? {
      hide SplitOf, Taken;
      SplitPermutes(s[Taken(s)..]);
      OptionSplit(s, []);
      assert [] + s[..Taken(s)] == s[..Taken(s)] && [] + SplitOf(s).opts == SplitOf(s).opts;
      OptionsInFront(SplitOf(s[Taken(s)..]), s, Taken(s));
    } else {
      MultisetSplit(s, 1);
      assert s[..1] == [s[0]];
      if s[0].NonOption? {
        SplitPermutes(s[1..]);
      }
    }
  }

  lemma OptionsInFront(t: Split, s: seq<Element>, k: nat)
    requires k <= |s| && multiset(t.opts) + multiset(t.nonopts) + multiset(t.rest) == multiset(s[k..])
    ensures multiset(s[..k] + t.opts) + multiset(t.nonopts) + multiset(t.rest) == multiset(s)
  {
    MultisetSplit(s, k);
  }

  lemma MultisetSplit(s: seq<Element>, k: nat)
    requires k <= |s|
    ensures multiset(s) == multiset(s[..k]) + multiset(s[k..])
  {
    assert s == s[..k] + s[k..];
  }

  ghost predicate AllNonOptions(s: seq<Element>) {
    forall i :: 0 <= i < |s| ==> s[i].NonOption?
  }

  /** What the scan skips is non-options only, and an argument vector already in order stays as it is. */
  lemma {:induction false} SplitGroups(s: seq<Element>)
    ensures AllNonOptions(SplitOf(s).nonopts)
    ensures AllNonOptions(s) ==> SplitOf(s) == Split([], s, [])
  {
    if s != [] {
      match s[0]
      case NonOption(_) =>
        SplitGroups(s[1..]);
        assert s == [s[0]] + s[1..];
      case DashDash =>
      case Opt(_, _, _) => SplitGroups(s[Taken(s)..]);
    }
  }
}
