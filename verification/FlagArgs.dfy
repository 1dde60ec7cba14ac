/** Moving flags in front of positionals (cmd/jenkins-mcp/main.go), against the reading of Go's flag package. */
module FlagArgs {
  import opened Prelude

  // ---- Go's flag package ------------------------------------------------------------------------------------

  /** Registered flags; true for the boolean ones. */
  type Flags = map<string, bool>

  /** What a command line means: each flag value set, in order, and the positionals; or a usage error. */
  datatype Reading = Usage | Read(settings: seq<(string, string)>, rest: seq<string>)

  predicate Dash(s: string) { s != [] && s[0] == '-' }

  /** The parser takes s for a flag, or for the end of the flags. */
  predicate FlagLike(s: string) { |s| >= 2 && s[0] == '-' }

  function NameText(s: string): string
    requires FlagLike(s)
  {
    if s[1] == '-' then s[2..] else s[1..]
  }

  /** The index of the first '=' from i on. */
  function EqualsFrom(s: string, i: nat): (r: Option<nat>)
    ensures r.Some? ==> i <= r.value < |s| && s[r.value] == '=' && forall k :: i <= k < r.value ==> s[k] != '='
    ensures r.None? ==> forall k :: i <= k < |s| ==> s[k] != '='
    decreases |s| - i
  {
    if i >= |s| then None else if s[i] == '=' then Some(i) else EqualsFrom(s, i + 1)
  }

  /** What one flag token is: an error whatever follows, complete in itself, or in need of the next argument. */
  datatype Token = Bad | Complete(name: string, value: string) | Needs(name: string)

  function TokenOf(flags: Flags, s: string): Token
    requires FlagLike(s)
  {
    var text := NameText(s);
    if text == [] || text[0] == '-' || text[0] == '=' then Bad
    else
      var eq := EqualsFrom(text, 1);
      var name := if eq.Some? then text[..eq.value] else text;
      if name !in flags then Bad
      else if eq.Some? then Complete(name, text[eq.value + 1..])
      else if flags[name] then Complete(name, "true")
      else Needs(name)
  }

  function Also(name: string, value: string, r: Reading): Reading {
    match r
    case Usage => Usage
    case Read(settings, rest) => Read([(name, value)] + settings, rest)
  }

  /** FlagSet.Parse: flags up to the first argument that is none. */
  function Parse(flags: Flags, args: seq<string>): Reading {
    if args == [] || !FlagLike(args[0]) then Read([], args)
    else if args[0] == "--" then Read([], args[1..])
    else match TokenOf(flags, args[0])
      case Bad => Usage
      case Complete(name, value) => Also(name, value, Parse(flags, args[1..]))
      case Needs(name) => if |args| < 2 then Usage else Also(name, args[1], Parse(flags, args[2..]))
  }

  function Positional(a: string, r: Reading): Reading {
    match r
    case Usage => Usage
    case Read(settings, rest) => Read(settings, [a] + rest)
  }

  /** The intended meaning: flags are read wherever they stand, up to a "--". */
  function Intended(flags: Flags, args: seq<string>): Reading {
    if args == [] then Read([], [])
    else if !FlagLike(args[0]) then Positional(args[0], Intended(flags, args[1..]))
    else if args[0] == "--" then Read([], args[1..])
    else match TokenOf(flags, args[0])
      case Bad => Usage
      case Complete(name, value) => Also(name, value, Intended(flags, args[1..]))
      case Needs(name) => if |args| < 2 then Usage else Also(name, args[1], Intended(flags, args[2..]))
  }

  // ---- Reordering -------------------------------------------------------------------------------------------

  function TrimDashes(s: string): string { if Dash(s) then TrimDashes(s[1..]) else s }

  function ValueFlags(flags: Flags): set<string> { set name | name in flags && !flags[name] }

  /** Whether the argument after a is moved along with it as its value. */
  predicate TakesNext(values: set<string>, args: seq<string>)
    requires args != []
  {
    '=' !in args[0] && TrimDashes(args[0]) in values && |args| > 1 && !Dash(args[1])
  }

  /** The arguments that go first. */
  function Front(values: set<string>, args: seq<string>): seq<string> {
    if args == [] || args[0] == "--" then []
    else if !Dash(args[0]) then Front(values, args[1..])
    else if TakesNext(values, args) then args[..2] + Front(values, args[2..])
    else [args[0]] + Front(values, args[1..])
  }

  /** The arguments that go last. */
  function Back(values: set<string>, args: seq<string>): seq<string> {
    if args == [] then []
    else if args[0] == "--" then args[1..]
    else if !Dash(args[0]) then [args[0]] + Back(values, args[1..])
    else if TakesNext(values, args) then Back(values, args[2..])
    else Back(values, args[1..])
  }

  function Reordered(values: set<string>, args: seq<string>): seq<string> { Front(values, args) + Back(values, args) }

  method ValueTakingFlags(flags: Flags) returns (values: set<string>)
    ensures values == ValueFlags(flags)
  {
    values := {};
    var rest := flags.Keys;
    while rest != {}
      invariant rest <= flags.Keys && values == (set name | name in flags && name !in rest && !flags[name])
    {
      var name :| name in rest;
      rest := rest - {name};
      if !flags[name] { values := values + {name}; }
    }
  }

  method ReorderFlagArgs(args: seq<string>, values: set<string>) returns (out: seq<string>)
    ensures out == Reordered(values, args)
  {
    var flags, pos: seq<string> := [], [];
    var i := 0;
    while i < |args|
      invariant 0 <= i <= |args|
      invariant flags + Front(values, args[i..]) == Front(values, args)
      invariant pos + Back(values, args[i..]) == Back(values, args)
    {
      SplitStep(values, args, i, flags, pos);
      var a := args[i];
      if a == "--" {
        pos := pos + args[i + 1..];
        return flags + pos;
      }
      if !Dash(a) {
        pos := pos + [a];
        i := i + 1;
        continue;
      }
      flags := flags + [a];
      if '=' in a {
        i := i + 1;
        continue;
      }
      var name := TrimDashes(a);
      if name in values && i + 1 < |args| && !Dash(args[i + 1]) {
        i := i + 1;
        flags := flags + [args[i]];
      }
      i := i + 1;
    }
    return flags + pos;
  }

  /** One turn of the loop, whichever branch it takes. */
  lemma {:induction false} SplitStep(values: set<string>, args: seq<string>, i: nat, flags: seq<string>, pos: seq<string>)
    requires i < |args|
    requires flags + Front(values, args[i..]) == Front(values, args) && pos + Back(values, args[i..]) == Back(values, args)
    ensures var a := args[i];
            if a == "--" then flags == Front(values, args) && pos + args[i + 1..] == Back(values, args)
            else if !Dash(a) then flags + Front(values, args[i + 1..]) == Front(values, args)
                                  && pos + [a] + Back(values, args[i + 1..]) == Back(values, args)
            else if '=' !in a && TrimDashes(a) in values && i + 1 < |args| && !Dash(args[i + 1]) then
              flags + [a] + [args[i + 1]] + Front(values, args[i + 2..]) == Front(values, args)
              && pos + Back(values, args[i + 2..]) == Back(values, args)
            else flags + [a] + Front(values, args[i + 1..]) == Front(values, args)
                 && pos + Back(values, args[i + 1..]) == Back(values, args)
  {
    var rest := args[i..];
    assert rest[1..] == args[i + 1..];
    if i + 1 < |args| {
      assert rest[2..] == args[i + 2..] && rest[..2] == [args[i]] + [args[i + 1]];
    }
  }

  // ---- Nothing is lost --------------------------------------------------------------------------------------

  /** How many leading arguments one turn of the loop deals with. */
  function Width(values: set<string>, args: seq<string>): (n: nat)
    requires args != []
    ensures 1 <= n <= 2 && n <= |args|
  {
    if Dash(args[0]) && TakesNext(values, args) then 2 else 1
  }

  lemma {:induction false} SplitTurn(values: set<string>, args: seq<string>)
    requires args != [] && args[0] != "--"
    ensures var n := Width(values, args);
            && args == args[..n] + args[n..] && ("--" in args <==> "--" in args[n..])
            && (Dash(args[0]) ==> Front(values, args) == args[..n] + Front(values, args[n..]) && Back(values, args) == Back(values, args[n..]))
            && (!Dash(args[0]) ==> Front(values, args) == Front(values, args[n..]) && Back(values, args) == args[..n] + Back(values, args[n..]))
  {
    var n := Width(values, args);
    if n == 1 {
      assert args[..1] == [args[0]];
    } else {
      assert args[..2] == [args[0], args[1]] && args[1] != "--";
    }
    assert forall x :: x in args <==> x in args[..n] || x in args[n..];
  }

  lemma {:induction false} CountTurn(head: seq<string>, f: seq<string>, b: seq<string>, stop: multiset<string>, tail: seq<string>)
    requires multiset(f) + multiset(b) + stop == multiset(tail)
    ensures multiset(head + f) + multiset(b) + stop == multiset(head + tail)
    ensures multiset(f) + multiset(head + b) + stop == multiset(head + tail)
  {}

  /** Reordering is a permutation, except that the first "--" is dropped. */
  lemma {:induction false} SplitCount(values: set<string>, args: seq<string>)
    ensures multiset(Front(values, args)) + multiset(Back(values, args)) + (if "--" in args then multiset{"--"} else multiset{})
         == multiset(args)
  {
    if args != [] {
      if args[0] == "--" {
        assert args == [args[0]] + args[1..];
        assert Front(values, args) == [] && Back(values, args) == args[1..];
      } else {
        hide Front, Back, TakesNext, Dash;
        var n := Width(values, args);
        SplitTurn(values, args);
        SplitCount(values, args[n..]);
        CountTurn(args[..n], Front(values, args[n..]), Back(values, args[n..]),
                  if "--" in args then multiset{"--"} else multiset{}, args[n..]);
      }
    }
  }

  lemma {:induction false} ReorderedIsPermutation(values: set<string>, args: seq<string>)
    ensures "--" !in args ==> multiset(Reordered(values, args)) == multiset(args)
    ensures "--" in args ==> multiset(Reordered(values, args)) == multiset(args) - multiset{"--"}
  {
    SplitCount(values, args);
    hide Front, Back;
    assert multiset(Reordered(values, args)) == multiset(Front(values, args)) + multiset(Back(values, args));
  }

  // ---- Reordering twice -----------------------------------------------------------------------------------

  /** Only non-dash arguments end up behind, as long as there is no "--". */
  lemma {:induction false} BackHasNoDash(values: set<string>, args: seq<string>)
    requires "--" !in args
    ensures forall a :: a in Back(values, args) ==> !Dash(a)
    ensures "--" !in Front(values, args)
  {
    if args != [] {
      var n := Width(values, args);
      SplitTurn(values, args);
      BackHasNoDash(values, args[n..]);
      assert forall x :: x in args[..n] ==> x in args;
    }
  }

  lemma {:induction false} NoDashStays(values: set<string>, args: seq<string>)
    requires forall a :: a in args ==> !Dash(a)
    ensures Front(values, args) == [] && Back(values, args) == args
  {
    if args != [] {
      assert args[0] in args;
      NoDashStays(values, args[1..]);
      assert args == [args[0]] + args[1..];
    }
  }

  /** Reordering what was put in front, followed by anything without dashes, changes nothing. */
  lemma {:induction false} FrontIsStable(values: set<string>, args: seq<string>, more: seq<string>)
    requires "--" !in args && forall a :: a in more ==> !Dash(a)
    ensures Reordered(values, Front(values, args) + more) == Front(values, args) + more
  {
    if args == [] {
      assert Front(values, args) + more == more;
      NoDashStays(values, more);
    } else {
      var n := Width(values, args);
      assert args[0] in args;
      SplitTurn(values, args);
      FrontIsStable(values, args[n..], more);
      if Dash(args[0]) { GroupIsStable(values, args, more); }
    }
  }

  /** A flag and its value stay together; a flag left without a value may take the first positional, in place. */
  lemma {:induction false} GroupIsStable(values: set<string>, args: seq<string>, more: seq<string>)
    requires args != [] && "--" !in args && args[0] != "--" && Dash(args[0]) && forall a :: a in more ==> !Dash(a)
    requires var rest := Front(values, args[Width(values, args)..]) + more; Reordered(values, rest) == rest
    ensures Reordered(values, Front(values, args) + more) == Front(values, args) + more
  {
    hide Front, Back, TakesNext, Dash, Width;
    var n := Width(values, args);
    SplitTurn(values, args);
    var rest := Front(values, args[n..]) + more;
    var all := Front(values, args) + more;
    assert all == args[..n] + rest;
    assert all[0] == args[0] && all[n..] == rest && all[..n] == args[..n];
    SplitTurn(values, all);
    if Width(values, all) == n {
      assert args[..n] + Front(values, rest) + Back(values, rest) == args[..n] + Reordered(values, rest);
    } else {
      LoneFlag(values, args, more);
      assert all[..2] == [args[0], more[0]] && all[2..] == more[1..];
      NoDashStays(values, more[1..]);
      assert all[..2] + [] + more[1..] == all;
    }
  }

  lemma {:induction false} NextFlagFollows(values: set<string>, args: seq<string>, more: seq<string>)
    requires args != [] && "--" !in args && Dash(args[0]) && args[0] != "--"
    ensures var all := Front(values, args) + more;
            |args| > 1 && Width(values, args) == 1 && Dash(args[1]) ==> |all| > 1 && all[1] == args[1]
    ensures |args| == 1 ==> Front(values, args) == [args[0]]
  {
    SplitTurn(values, args);
    if |args| > 1 && Dash(args[1]) {
      assert args[1] in args && args[1..][0] == args[1];
      SplitTurn(values, args[1..]);
    }
  }

  lemma {:induction false} LoneFlag(values: set<string>, args: seq<string>, more: seq<string>)
    requires args != [] && "--" !in args && args[0] != "--" && Dash(args[0])
    requires Width(values, Front(values, args) + more) != Width(values, args)
    ensures |args| == 1 && more != [] && Width(values, Front(values, args) + more) == 2 && Front(values, args) == [args[0]]
  {
    SplitTurn(values, args);
    NextFlagFollows(values, args, more);
    var n := Width(values, args);
    assert Front(values, args) + more == args[..n] + (Front(values, args[n..]) + more);
  }

  /** On arguments without "--", reordering twice is reordering once. */
  lemma {:induction false} ReorderIsIdempotent(values: set<string>, args: seq<string>)
    requires "--" !in args
    ensures Reordered(values, Reordered(values, args)) == Reordered(values, args)
  {
    BackHasNoDash(values, args);
    FrontIsStable(values, args, Back(values, args));
  }

  // ---- Meaning ------------------------------------------------------------------------------------------------

  lemma {:induction false} TrimDashesOfName(s: string)
    requires FlagLike(s) && NameText(s) != [] && NameText(s)[0] != '-'
    ensures TrimDashes(s) == NameText(s)
  {
    assert TrimDashes(s) == TrimDashes(s[1..]);
    if s[1] == '-' {
      assert s[1..][1..] == s[2..];
      assert TrimDashes(s[1..]) == TrimDashes(s[2..]);
    }
  }

  /** The loop takes the next argument along exactly for the tokens that need one. */
  lemma {:induction false} TakesNextIffNeeds(flags: Flags, args: seq<string>)
    requires args != [] && FlagLike(args[0]) && !TokenOf(flags, args[0]).Bad?
    ensures TakesNext(ValueFlags(flags), args) <==> TokenOf(flags, args[0]).Needs? && |args| > 1 && !Dash(args[1])
  {
    var s, text := args[0], NameText(args[0]);
    TrimDashesOfName(s);
    var eq := EqualsFrom(text, 1);
    if eq.Some? {
      assert text[eq.value] == '=' && '=' in s;
    } else {
      forall k | 0 <= k < |s| ensures s[k] != '=' {
        if k >= |s| - |text| { assert s[k] == text[k - (|s| - |text|)]; }
      }
    }
  }

  /** No flag has an empty name. */
  predicate Named(flags: Flags) { "" !in flags }

  /** Leading arguments that are no flags, then perhaps a "--" and whatever follows it. */
  predicate OnlyPositionals(args: seq<string>) {
    args == [] || args[0] == "--" || (!Dash(args[0]) && OnlyPositionals(args[1..]))
  }

  /** The same after any number of lone dashes. */
  predicate DashesFirst(args: seq<string>) {
    if args != [] && args[0] == "-" then DashesFirst(args[1..]) else OnlyPositionals(args)
  }

  /** The value that follows a flag looks like a flag that takes the argument after it. */
  predicate ValueTakesNext(flags: Flags, args: seq<string>)
    requires |args| > 1
  {
    Dash(args[1]) && TakesNext(ValueFlags(flags), args[1..])
  }

  /**
   * Whether the meaning of a command line survives, in one pass over it, given the positionals before it:
   * - a "--" is dropped, which shows when what follows it then looks like a flag to the parser;
   * - a lone dash, and the argument that a value takes along, stop the parser, so no flag may follow and only the same
   *   argument may stand before;
   * - a flag that lacks its value takes the first positional instead;
   * - a "--" that is a value ends the reordering and then is lost.
   */
  predicate Kept(flags: Flags, args: seq<string>, before: seq<string>) {
    if args == [] then true
    else if args[0] == "--" then before != [] || |args| == 1 || !FlagLike(args[1])
    else if args[0] == "-" then before == [] && DashesFirst(args[1..])
    else if !Dash(args[0]) then Kept(flags, args[1..], before + [args[0]])
    else match TokenOf(flags, args[0])
      case Bad => true
      case Complete(_, _) => Kept(flags, args[1..], before)
      case Needs(_) =>
        if |args| == 1 then before == []
        else if args[1] == "--" then ValueKept(flags, args[2..], before)
        else if ValueTakesNext(flags, args) then
          (before == [] && DashesFirst(args[3..])) || ((forall p :: p in before ==> p == args[2]) && OnlyPositionals(args[3..]))
        else Kept(flags, args[2..], before)
  }

  /** After a flag whose value is "--": another "--" takes its place, or both readings meet an error. */
  predicate ValueKept(flags: Flags, rest: seq<string>, before: seq<string>) {
    || (before == [] && rest != [] && rest[0] == "--" && (|rest| == 1 || !FlagLike(rest[1])))
    || (before + rest != [] && Intended(flags, rest).Usage? && Parse(flags, (before + rest)[1..]).Usage?)
  }

  /** What was read, with positionals in front. */
  function After(before: seq<string>, r: Reading): Reading {
    match r
    case Usage => Usage
    case Read(settings, rest) => Read(settings, before + rest)
  }

  lemma {:induction false} ParseStops(flags: Flags, more: seq<string>)
    requires more == [] || !FlagLike(more[0])
    ensures Parse(flags, more) == Read([], more)
  {}

  lemma {:induction false} DashIsFlag(s: string)
    requires Dash(s) && s != "-"
    ensures FlagLike(s)
  {}

  lemma {:induction false} AlsoInjective(name: string, value: string, r: Reading, q: Reading)
    ensures Also(name, value, r) == Also(name, value, q) <==> r == q
  {
    if r.Read? && q.Read? && Also(name, value, r) == Also(name, value, q) {
      assert r.settings == ([(name, value)] + r.settings)[1..] == ([(name, value)] + q.settings)[1..] == q.settings;
    }
  }

  /** How front, back and positionals relate where nothing is set. */
  predicate DashesMoveFirst(f: seq<string>, b: seq<string>, q: seq<string>, only: bool, first: bool) {
    && (forall x :: x in f ==> x == "-") && |f| + |b| == |q| && (only <==> f == []) && (f == [] ==> b == q)
    && (f + b == q <==> first)
  }

  lemma {:induction false} DashesMoveOn(f: seq<string>, b: seq<string>, q: seq<string>, only: bool, first: bool)
    requires DashesMoveFirst(f, b, q, only, first)
    ensures DashesMoveFirst(["-"] + f, b, ["-"] + q, false, first)
  {
    assert ["-"] + f + b == ["-"] + (f + b);
    assert (["-"] + q)[1..] == q && (["-"] + (f + b))[1..] == f + b;
  }

  lemma {:induction false} PositionalMovesOn(a: string, f: seq<string>, b: seq<string>, q: seq<string>, only: bool, first: bool)
    requires !Dash(a) && DashesMoveFirst(f, b, q, only, first)
    ensures DashesMoveFirst(f, [a] + b, [a] + q, only, only)
  {
    if f != [] {
      assert f[0] in f && (f + ([a] + b))[0] == "-" && Dash("-");
    } else {
      assert f + ([a] + b) == [a] + b;
    }
  }

  /** A command line that sets nothing: lone dashes and positionals, in some order. */
  lemma {:induction false} SetsNothing(flags: Flags, args: seq<string>)
    requires Named(flags) && Intended(flags, args).Read? && Intended(flags, args).settings == []
    ensures DashesMoveFirst(Front(ValueFlags(flags), args), Back(ValueFlags(flags), args), Intended(flags, args).rest,
                            OnlyPositionals(args), DashesFirst(args))
  {
    hide TokenOf, Named, TakesNext, DashesMoveFirst;
    var values := ValueFlags(flags);
    if args == [] || args[0] == "--" {
      NothingMoves(Intended(flags, args).rest);
    } else {
      var more := args[1..];
      if !Dash(args[0]) {
        SetsNothing(flags, more);
        PositionalMovesOn(args[0], Front(values, more), Back(values, more), Intended(flags, more).rest, OnlyPositionals(more),
                          DashesFirst(more));
      } else if args[0] == "-" {
        LoneDashGoesAlone(flags, args);
        SetsNothing(flags, more);
        DashesMoveOn(Front(values, more), Back(values, more), Intended(flags, more).rest, OnlyPositionals(more), DashesFirst(more));
      }
    }
  }

  lemma {:induction false} NothingMoves(q: seq<string>)
    ensures DashesMoveFirst([], q, q, true, true)
  {
    assert [] + q == q;
  }

  lemma {:induction false} LoneDashGoesAlone(flags: Flags, args: seq<string>)
    requires Named(flags) && args != [] && args[0] == "-"
    ensures !TakesNext(ValueFlags(flags), args)
    ensures Front(ValueFlags(flags), args) == ["-"] + Front(ValueFlags(flags), args[1..])
    ensures Back(ValueFlags(flags), args) == Back(ValueFlags(flags), args[1..])
  {
    assert TrimDashes("-") == TrimDashes("") == "";
  }

  /** Where the parser is stopped by an argument that was moved in front. */
  lemma {:induction false} StoppedIff(flags: Flags, stop: string, last: seq<string>, before: seq<string>)
    requires Named(flags) && (forall p :: p in before ==> !Dash(p)) && (Dash(stop) ==> stop == "-")
    ensures Read([], [stop] + Front(ValueFlags(flags), last) + before + Back(ValueFlags(flags), last))
         == After(before, Positional(stop, Intended(flags, last)))
        <==> (before == [] && DashesFirst(last)) || ((forall p :: p in before ==> p == stop) && OnlyPositionals(last))
  {
    hide DashesMoveFirst;
    SetsNothingIf(flags, last);
    var r := Intended(flags, last);
    if r.Read? && r.settings == [] {
      SetsNothing(flags, last);
      StopMoves(stop, Front(ValueFlags(flags), last), Back(ValueFlags(flags), last), r.rest, before, OnlyPositionals(last),
                DashesFirst(last));
    }
  }

  lemma {:induction false} SetsNothingIf(flags: Flags, args: seq<string>)
    ensures OnlyPositionals(args) ==> DashesFirst(args)
    ensures DashesFirst(args) ==> Intended(flags, args).Read? && Intended(flags, args).settings == []
  {
    hide TokenOf;
    if args != [] && args[0] != "--" && !FlagLike(args[0]) { SetsNothingIf(flags, args[1..]); }
  }

  lemma {:induction false} StopMoves(stop: string, f: seq<string>, b: seq<string>, q: seq<string>, before: seq<string>,
                                     only: bool, first: bool)
    requires DashesMoveFirst(f, b, q, only, first) && (only ==> first)
    requires (forall p :: p in before ==> !Dash(p)) && (Dash(stop) ==> stop == "-")
    ensures [stop] + f + before + b == before + ([stop] + q)
        <==> (before == [] && first) || ((forall p :: p in before ==> p == stop) && only)
  {
    var all := [stop] + f + before + b;
    if before == [] {
      assert all == [stop] + (f + b);
      assert ([stop] + (f + b))[1..] == f + b && ([stop] + q)[1..] == q && before + ([stop] + q) == [stop] + q;
    } else if f != [] {
      assert f[0] in f && all[1] == "-" && Dash("-");
      assert before[0] in before && (|before| > 1 ==> before[1] in before);
      var other := before + ([stop] + q);
      assert all[0] == stop && other[0] == before[0] && other[1] == if |before| > 1 then before[1] else stop;
    } else {
      assert all == ([stop] + before) + q && before + ([stop] + q) == (before + [stop]) + q;
      Shift(stop, before);
      if all == before + ([stop] + q) {
        assert [stop] + before == all[..|before| + 1] == before + [stop];
      }
    }
  }

  lemma {:induction false} Shift(x: string, s: seq<string>)
    ensures [x] + s == s + [x] <==> forall p :: p in s ==> p == x
  {
    forall i | 0 <= i < |s| && [x] + s == s + [x] ensures s[i] == x { ShiftAt(x, s, i); }
    if forall p :: p in s ==> p == x {
      assert forall i :: 0 <= i < |s| ==> s[i] in s;
      assert [x] + s == s + [x];
    }
  }

  lemma {:induction false} ShiftAt(x: string, s: seq<string>, i: nat)
    requires [x] + s == s + [x] && i < |s|
    ensures s[i] == x
  {
    assert ([x] + s)[i] == (s + [x])[i] == s[i];
    if i > 0 { ShiftAt(x, s, i - 1); }
  }

  /** The reading after reordering what is left, with positionals found before, against what is meant. */
  predicate SameReading(flags: Flags, args: seq<string>, before: seq<string>) {
    Parse(flags, Front(ValueFlags(flags), args) + before + Back(ValueFlags(flags), args)) == After(before, Intended(flags, args))
  }

  lemma {:induction false} SameFrom(flags: Flags, args: seq<string>, before: seq<string>)
    requires Named(flags) && forall p :: p in before ==> !Dash(p)
    ensures SameReading(flags, args, before) <==> Kept(flags, args, before)
    decreases |args|
  {
    if args == [] || args[0] == "--" {
      EndIff(flags, args, before);
    } else if args[0] == "-" {
      LoneDashIff(flags, args, before);
    } else if !Dash(args[0]) {
      PositionalIff(flags, args, before);
      SameFrom(flags, args[1..], before + [args[0]]);
    } else {
      DashIsFlag(args[0]);
      match TokenOf(flags, args[0])
      case Bad => BadIff(flags, args, before);
      case Complete(_, _) =>
        CompleteIff(flags, args, before);
        SameFrom(flags, args[1..], before);
      case Needs(_) =>
        if |args| == 1 {
          MissingIff(flags, args, before);
        } else if args[1] == "--" {
          DashDashValueIff(flags, args, before);
        } else if ValueTakesNext(flags, args) {
          TakingValueIff(flags, args, before);
        } else {
          ValueIff(flags, args, before);
          SameFrom(flags, args[2..], before);
        }
    }
  }

  lemma {:induction false} EndIff(flags: Flags, args: seq<string>, before: seq<string>)
    requires (args == [] || args[0] == "--") && forall p :: p in before ==> !Dash(p)
    ensures SameReading(flags, args, before) <==> Kept(flags, args, before)
  {
    var more := before + if args == [] then [] else args[1..];
    assert Front(ValueFlags(flags), args) + before + Back(ValueFlags(flags), args) == more;
    if before != [] { assert before[0] in before; }
    if more == [] || !FlagLike(more[0]) { ParseStops(flags, more); } else { ParseLeavesSuffix(flags, more); }
  }

  lemma {:induction false} ParseLeavesSuffix(flags: Flags, args: seq<string>)
    ensures var r := Parse(flags, args); r.Read? ==> |r.rest| <= |args| && (args != [] && FlagLike(args[0]) ==> |r.rest| < |args|)
  {
    hide TokenOf;
    if args != [] && FlagLike(args[0]) && args[0] != "--" {
      match TokenOf(flags, args[0])
      case Bad =>
      case Complete(_, _) => ParseLeavesSuffix(flags, args[1..]);
      case Needs(_) => if |args| >= 2 { ParseLeavesSuffix(flags, args[2..]); }
    }
  }

  lemma {:induction false} LoneDashIff(flags: Flags, args: seq<string>, before: seq<string>)
    requires Named(flags) && args != [] && args[0] == "-" && forall p :: p in before ==> !Dash(p)
    ensures SameReading(flags, args, before) <==> Kept(flags, args, before)
  {
    hide DashesFirst, OnlyPositionals;
    var f, b := Front(ValueFlags(flags), args[1..]), Back(ValueFlags(flags), args[1..]);
    LoneDashGoesAlone(flags, args);
    ParseStops(flags, ["-"] + f + before + b);
    StoppedIff(flags, "-", args[1..], before);
    SetsNothingIf(flags, args[1..]);
    if before != [] { assert before[0] in before && Dash("-"); }
  }

  lemma {:induction false} PositionalIff(flags: Flags, args: seq<string>, before: seq<string>)
    requires args != [] && !Dash(args[0])
    ensures SameReading(flags, args, before) <==> SameReading(flags, args[1..], before + [args[0]])
  {
    hide Parse;
    var values, more, rest := ValueFlags(flags), before + [args[0]], args[1..];
    assert Front(values, args) + before + Back(values, args) == Front(values, rest) + more + Back(values, rest);
    var r := Intended(flags, rest);
    if r.Read? { assert before + ([args[0]] + r.rest) == more + r.rest; }
  }

  lemma {:induction false} BadIff(flags: Flags, args: seq<string>, before: seq<string>)
    requires args != [] && FlagLike(args[0]) && args[0] != "--" && TokenOf(flags, args[0]).Bad?
    ensures SameReading(flags, args, before)
  {
    hide TokenOf, TakesNext;
    FrontStarts(ValueFlags(flags), args);
  }

  lemma {:induction false} FrontStarts(values: set<string>, args: seq<string>)
    requires args != [] && args[0] != "--" && Dash(args[0])
    ensures Front(values, args) != [] && Front(values, args)[0] == args[0]
  {}

  lemma {:induction false} AlsoAfter(name: string, value: string, before: seq<string>, r: Reading)
    ensures After(before, Also(name, value, r)) == Also(name, value, After(before, r))
  {}

  lemma {:induction false} CompleteIff(flags: Flags, args: seq<string>, before: seq<string>)
    requires args != [] && FlagLike(args[0]) && args[0] != "--" && TokenOf(flags, args[0]).Complete?
    ensures SameReading(flags, args, before) <==> SameReading(flags, args[1..], before)
  {
    var values, rest := ValueFlags(flags), args[1..];
    TakesNextIffNeeds(flags, args);
    var more := Front(values, rest) + before + Back(values, rest);
    var all := Front(values, args) + before + Back(values, args);
    assert all == [args[0]] + more && all[1..] == more;
    hide TokenOf, Front, Back, TakesNext;
    var token := TokenOf(flags, args[0]);
    AlsoAfter(token.name, token.value, before, Intended(flags, rest));
    AlsoInjective(token.name, token.value, Parse(flags, more), After(before, Intended(flags, rest)));
  }

  /** A flag with its value in front of what follows. */
  lemma {:induction false} NeedsStep(flags: Flags, args: seq<string>, before: seq<string>, more: seq<string>)
    requires |args| > 1 && FlagLike(args[0]) && args[0] != "--" && TokenOf(flags, args[0]).Needs?
    ensures Parse(flags, args[..2] + more) == After(before, Intended(flags, args))
        <==> Parse(flags, more) == After(before, Intended(flags, args[2..]))
  {
    hide TokenOf;
    var name := TokenOf(flags, args[0]).name;
    assert (args[..2] + more)[2..] == more;
    AlsoAfter(name, args[1], before, Intended(flags, args[2..]));
    AlsoInjective(name, args[1], Parse(flags, more), After(before, Intended(flags, args[2..])));
  }

  /** What is put in front begins with a flag and its value, unless the value is a "--". */
  lemma {:induction false} FrontOfValue(flags: Flags, args: seq<string>)
    requires |args| > 1 && FlagLike(args[0]) && args[0] != "--" && TokenOf(flags, args[0]).Needs? && args[1] != "--"
    ensures var values := ValueFlags(flags);
            if ValueTakesNext(flags, args) then
              Front(values, args) == args[..2] + ([args[2]] + Front(values, args[3..])) && Back(values, args) == Back(values, args[3..])
            else Front(values, args) == args[..2] + Front(values, args[2..]) && Back(values, args) == Back(values, args[2..])
  {
    TakesNextIffNeeds(flags, args);
    hide TakesNext, TokenOf;
    var values := ValueFlags(flags);
    assert args[..2] == [args[0]] + [args[1]] && args[1..][1..] == args[2..];
    if ValueTakesNext(flags, args) {
      NextExists(values, args[1..]);
      assert args[1..][..2] == [args[1]] + [args[2]] && args[1..][2..] == args[3..];
      assert [args[0]] + ([args[1]] + [args[2]] + Front(values, args[3..])) == args[..2] + ([args[2]] + Front(values, args[3..]));
    } else if Dash(args[1]) {
      assert [args[0]] + ([args[1]] + Front(values, args[2..])) == args[..2] + Front(values, args[2..]);
    }
  }

  lemma {:induction false} NextExists(values: set<string>, args: seq<string>)
    requires args != [] && TakesNext(values, args)
    ensures |args| > 1 && !Dash(args[1])
  {}

  lemma {:induction false} ValueIff(flags: Flags, args: seq<string>, before: seq<string>)
    requires |args| > 1 && FlagLike(args[0]) && args[0] != "--" && TokenOf(flags, args[0]).Needs?
    requires args[1] != "--" && !ValueTakesNext(flags, args)
    ensures SameReading(flags, args, before) <==> SameReading(flags, args[2..], before)
  {
    FrontOfValue(flags, args);
    hide Front, Back, TokenOf, ValueTakesNext, Parse, Intended;
    var values := ValueFlags(flags);
    var more := Front(values, args[2..]) + before + Back(values, args[2..]);
    assert Front(values, args) + before + Back(values, args) == args[..2] + more;
    NeedsStep(flags, args, before, more);
  }

  lemma {:induction false} TakingValueIff(flags: Flags, args: seq<string>, before: seq<string>)
    requires Named(flags) && forall p :: p in before ==> !Dash(p)
    requires |args| > 1 && FlagLike(args[0]) && args[0] != "--" && TokenOf(flags, args[0]).Needs?
    requires args[1] != "--" && ValueTakesNext(flags, args)
    ensures SameReading(flags, args, before) <==> Kept(flags, args, before)
  {
    FrontOfValue(flags, args);
    NextExists(ValueFlags(flags), args[1..]);
    var values, stop, last := ValueFlags(flags), args[2], args[3..];
    StoppedIff(flags, stop, last, before);
    hide Front, Back, TokenOf, TakesNext, DashesFirst, OnlyPositionals;
    var more := [stop] + Front(values, last) + before + Back(values, last);
    assert Front(values, args) + before + Back(values, args) == args[..2] + more;
    NeedsStep(flags, args, before, more);
    ParseStops(flags, more);
    assert args[2..][0] == stop && args[2..][1..] == last && !FlagLike(stop);
  }

  lemma {:induction false} LastFlag(flags: Flags, flag: string)
    requires FlagLike(flag) && flag != "--" && TokenOf(flags, flag).Needs?
    ensures Front(ValueFlags(flags), [flag]) == [flag] && Back(ValueFlags(flags), [flag]) == []
    ensures Intended(flags, [flag]) == Usage
  {
    hide TokenOf;
  }

  lemma {:induction false} ParseNeeds(flags: Flags, flag: string, more: seq<string>)
    requires FlagLike(flag) && flag != "--" && TokenOf(flags, flag).Needs?
    ensures Parse(flags, [flag] + more)
         == if more == [] then Usage else Also(TokenOf(flags, flag).name, more[0], Parse(flags, more[1..]))
  {
    hide TokenOf;
    if more != [] { assert ([flag] + more)[2..] == more[1..]; }
  }

  lemma {:induction false} MissingIff(flags: Flags, args: seq<string>, before: seq<string>)
    requires |args| == 1 && FlagLike(args[0]) && args[0] != "--" && TokenOf(flags, args[0]).Needs?
    requires forall p :: p in before ==> !Dash(p)
    ensures SameReading(flags, args, before) <==> before == []
  {
    hide TokenOf;
    assert args == [args[0]];
    LastFlag(flags, args[0]);
    ParseNeeds(flags, args[0], before);
    assert Front(ValueFlags(flags), args) + before + Back(ValueFlags(flags), args) == [args[0]] + before;
    if before != [] {
      if |before| > 1 { assert before[1..][0] == before[1] && before[1] in before; }
      ParseStops(flags, before[1..]);
    }
  }

  lemma {:induction false} DashDashValueIff(flags: Flags, args: seq<string>, before: seq<string>)
    requires |args| > 1 && FlagLike(args[0]) && args[0] != "--" && TokenOf(flags, args[0]).Needs? && args[1] == "--"
    requires forall p :: p in before ==> !Dash(p)
    ensures SameReading(flags, args, before) <==> ValueKept(flags, args[2..], before)
  {
    var values, rest := ValueFlags(flags), args[2..];
    TakesNextIffNeeds(flags, args);
    assert args[1..][1..] == rest;
    assert Front(values, args) == [args[0]] && Back(values, args) == rest;
    assert Front(values, args) + before + Back(values, args) == [args[0]] + (before + rest);
    hide TokenOf, Front, Back, TakesNext;
    var name := TokenOf(flags, args[0]).name;
    ParseNeeds(flags, args[0], before + rest);
    AlsoAfter(name, "--", before, Intended(flags, rest));
    if before + rest != [] {
      if before != [] { assert before[0] in before && Dash("--"); }
      AlsoEqual(name, (before + rest)[0], Parse(flags, (before + rest)[1..]), "--", After(before, Intended(flags, rest)));
      if before == [] && rest[0] == "--" {
        assert before + rest == rest;
        if |rest| == 1 || !FlagLike(rest[1]) { ParseStops(flags, rest[1..]); } else { ParseLeavesSuffix(flags, rest[1..]); }
      }
    }
  }

  lemma {:induction false} AlsoEqual(name: string, v: string, r: Reading, w: string, q: Reading)
    ensures Also(name, v, r) == Also(name, w, q) <==> (r.Usage? && q.Usage?) || (v == w && r == q)
  {
    if r.Read? && q.Read? && Also(name, v, r) == Also(name, w, q) {
      assert ([(name, v)] + r.settings)[0] == ([(name, w)] + q.settings)[0];
      AlsoInjective(name, v, r, q);
    }
  }

  /** For every command line: the parser reads the reordered line as it was meant if and only if the scan says so. */
  lemma {:induction false} MeaningKeptIff(flags: Flags, args: seq<string>)
    requires Named(flags)
    ensures Parse(flags, Reordered(ValueFlags(flags), args)) == Intended(flags, args) <==> Kept(flags, args, [])
  {
    SameFrom(flags, args, []);
    hide Parse, Front, Back, Intended, Kept;
    assert Front(ValueFlags(flags), args) + [] + Back(ValueFlags(flags), args) == Reordered(ValueFlags(flags), args);
    var r := Intended(flags, args);
    if r.Read? { assert [] + r.rest == r.rest; }
  }

  // ---- Where it is kept, and how it is lost ---------------------------------------------------------------------

  /** A positional, a complete flag, or a flag with a value that neither is a "--" nor takes the next argument along. */
  predicate HeadClean(flags: Flags, args: seq<string>) {
    && args != [] && args[0] != "--" && args[0] != "-"
    && (Dash(args[0]) ==> match TokenOf(flags, args[0])
          case Bad => false
          case Complete(_, _) => true
          case Needs(_) => |args| > 1 && args[1] != "--" && !ValueTakesNext(flags, args))
  }

  /** How many arguments the head takes. */
  function Turn(flags: Flags, args: seq<string>): (n: nat)
    requires HeadClean(flags, args)
    ensures 1 <= n <= |args|
  {
    if Dash(args[0]) && TokenOf(flags, args[0]).Needs? then 2 else 1
  }

  /** Clean heads up to the end or to the first error. */
  predicate Clean(flags: Flags, args: seq<string>)
    decreases |args|
  {
    || args == []
    || (if HeadClean(flags, args) then Clean(flags, args[Turn(flags, args)..])
        else args[0] != "-" && FlagLike(args[0]) && args[0] != "--" && TokenOf(flags, args[0]).Bad?)
  }

  /** Where no "--", lone dash, missing or misread value occurs, the scan finds nothing. */
  lemma {:induction false} CleanIsKept(flags: Flags, args: seq<string>, before: seq<string>)
    requires Clean(flags, args)
    ensures Kept(flags, args, before)
    decreases |args|
  {
    hide TokenOf, ValueTakesNext;
    if args != [] && HeadClean(flags, args) {
      CleanIsKept(flags, args[Turn(flags, args)..], if Dash(args[0]) then before else before + [args[0]]);
    }
  }

  /**
   * Meaning: after reordering, Go's parser sets the same flags to the same values in the same order and
   * leaves the positionals in their order, or reports a usage error, just as the command line meant.
   */
  lemma {:induction false} ReorderingKeepsMeaning(flags: Flags, args: seq<string>)
    requires Named(flags) && Clean(flags, args)
    ensures Parse(flags, Reordered(ValueFlags(flags), args)) == Intended(flags, args)
  {
    CleanIsKept(flags, args, []);
    MeaningKeptIff(flags, args);
  }

  /** What the head adds to the front and to the positionals. */
  function Moved(flags: Flags, args: seq<string>): seq<string>
    requires HeadClean(flags, args)
  {
    if Dash(args[0]) then args[..Turn(flags, args)] else []
  }

  function Left(args: seq<string>): seq<string>
    requires args != []
  {
    if Dash(args[0]) then [] else [args[0]]
  }

  lemma {:induction false} TurnSplits(flags: Flags, args: seq<string>)
    requires HeadClean(flags, args)
    ensures var values, rest := ValueFlags(flags), args[Turn(flags, args)..];
            && Front(values, args) == Moved(flags, args) + Front(values, rest)
            && Back(values, args) == Left(args) + Back(values, rest)
  {
    if Dash(args[0]) {
      DashIsFlag(args[0]);
      if TokenOf(flags, args[0]).Needs? {
        FrontOfValue(flags, args);
      } else {
        TakesNextIffNeeds(flags, args);
        assert args[..1] == [args[0]];
      }
    }
  }

  lemma {:induction false} TurnKept(flags: Flags, args: seq<string>, before: seq<string>)
    requires HeadClean(flags, args)
    ensures Kept(flags, args, before) <==> Kept(flags, args[Turn(flags, args)..], before + Left(args))
  {
    hide TokenOf, ValueTakesNext;
    assert before + [] == before;
  }

  /** What the head alone means. */
  function HeadReading(flags: Flags, args: seq<string>, r: Reading): Reading
    requires HeadClean(flags, args)
  {
    if !Dash(args[0]) then Positional(args[0], r)
    else
      var token := TokenOf(flags, args[0]);
      Also(token.name, if token.Needs? then args[1] else token.value, r)
  }

  lemma {:induction false} TurnMeans(flags: Flags, args: seq<string>)
    requires HeadClean(flags, args)
    ensures Intended(flags, args) == HeadReading(flags, args, Intended(flags, args[Turn(flags, args)..]))
  {
    hide TokenOf, ValueTakesNext;
  }

  /** The head is the same whatever dash argument, or nothing, comes after the clean part. */
  lemma {:induction false} HeadStays(flags: Flags, first: seq<string>, rest: seq<string>)
    requires HeadClean(flags, first) && (rest != [] ==> Dash(rest[0]))
    ensures var n := Turn(flags, first);
            && HeadClean(flags, first + rest) && Turn(flags, first + rest) == n && (first + rest)[n..] == first[n..] + rest
            && Moved(flags, first + rest) == Moved(flags, first) && Left(first + rest) == Left(first)
            && forall r :: HeadReading(flags, first + rest, r) == HeadReading(flags, first, r)
  {
    hide TokenOf;
    assert (first + rest)[0] == first[0];
    if |first| > 1 { assert (first + rest)[1] == first[1] && (first + rest)[1..] == first[1..] + rest; }
    assert (first + rest)[..Turn(flags, first)] == first[..Turn(flags, first)];
  }

  /** Read one after the other. */
  function Joined(r: Reading, next: Reading): Reading {
    if r.Usage? || next.Usage? then Usage else Read(r.settings + next.settings, r.rest + next.rest)
  }

  lemma {:induction false} HeadJoined(flags: Flags, args: seq<string>, r: Reading, next: Reading)
    requires HeadClean(flags, args)
    ensures Joined(HeadReading(flags, args, r), next) == HeadReading(flags, args, Joined(r, next))
    ensures HeadReading(flags, args, r).Read? <==> r.Read?
  {
    hide TokenOf, HeadClean;
    if r.Read? && next.Read? {
      var (s, a) := match HeadReading(flags, args, Read([], [])) case Read(x, y) => (x, y);
      assert s + (r.settings + next.settings) == s + r.settings + next.settings;
      assert a + (r.rest + next.rest) == a + r.rest + next.rest;
    }
  }

  /** After a clean part: front, back, meaning and scan, one part after the other. */
  lemma {:induction false} AfterClean(flags: Flags, first: seq<string>, rest: seq<string>, before: seq<string>)
    requires Clean(flags, first) && Intended(flags, first).Read? && (rest != [] ==> Dash(rest[0]))
    ensures var values := ValueFlags(flags);
            && Front(values, first + rest) == Front(values, first) + Front(values, rest)
            && Back(values, first + rest) == Back(values, first) + Back(values, rest)
            && Intended(flags, first + rest) == Joined(Intended(flags, first), Intended(flags, rest))
            && (Kept(flags, first + rest, before) <==> Kept(flags, rest, before + Back(values, first)))
            && Intended(flags, first).rest == Back(values, first) && forall p :: p in Back(values, first) ==> !Dash(p)
    decreases |first|
  {
    var values := ValueFlags(flags);
    if first == [] {
      assert first + rest == rest && before + Back(values, first) == before;
      NothingFirst(Front(values, rest), Back(values, rest), Intended(flags, rest));
    } else {
      var n := Turn(flags, first);
      TurnSplits(flags, first);
      TurnMeans(flags, first);
      HeadStays(flags, first, rest);
      TurnSplits(flags, first + rest);
      TurnMeans(flags, first + rest);
      TurnKept(flags, first + rest, before);
      HeadJoined(flags, first, Intended(flags, first[n..]), Intended(flags, rest));
      hide Front, Back, Intended, Kept, HeadClean, TokenOf;
      AfterClean(flags, first[n..], rest, before + Left(first));
      Regroup(Moved(flags, first), Front(values, first[n..]), Front(values, rest));
      Regroup(Left(first), Back(values, first[n..]), Back(values, rest));
      Regroup(before, Left(first), Back(values, first[n..]));
    }
  }

  lemma {:induction false} Regroup<T>(a: seq<T>, b: seq<T>, c: seq<T>)
    ensures a + (b + c) == a + b + c
  {}

  lemma {:induction false} NothingFirst(f: seq<string>, b: seq<string>, r: Reading)
    ensures [] + f == f && [] + b == b && Joined(Read([], []), r) == r
  {
    if r.Read? { assert [] + r.settings == r.settings && [] + r.rest == r.rest; }
  }

  /** r read before what is read next. */
  function Before(r: Reading, next: Reading): Reading {
    if r.Usage? || next.Usage? then Usage else Read(r.settings + next.settings, next.rest)
  }

  /**
   * The arguments put in front are read exactly as they were meant, and then the parser goes on with
   * whatever follows them.
   */
  lemma {:induction false} FrontReadsAsIntended(flags: Flags, args: seq<string>, more: seq<string>)
    requires Clean(flags, args)
    ensures Parse(flags, Front(ValueFlags(flags), args) + more) == Before(Intended(flags, args), Parse(flags, more))
    decreases |args|
  {
    var values := ValueFlags(flags);
    if args == [] {
      assert Front(values, args) + more == more;
      NothingBefore(Parse(flags, more));
    } else if !HeadClean(flags, args) {
      FrontStarts(values, args);
      ErrorFirst(flags, args, Front(values, args) + more);
    } else {
      var rest := args[Turn(flags, args)..];
      TurnSplits(flags, args);
      TurnMeans(flags, args);
      HeadIsParsed(flags, args, Front(values, rest) + more);
      HeadBefore(flags, args, Intended(flags, rest), Parse(flags, more));
      hide Front, Intended, Parse, HeadClean, TokenOf;
      FrontReadsAsIntended(flags, rest, more);
      Regroup(Moved(flags, args), Front(values, rest), more);
    }
  }

  lemma {:induction false} NothingBefore(r: Reading)
    ensures Before(Read([], []), r) == r
  {
    if r.Read? { assert [] + r.settings == r.settings; }
  }

  lemma {:induction false} ErrorFirst(flags: Flags, args: seq<string>, all: seq<string>)
    requires args != [] && FlagLike(args[0]) && args[0] != "--" && TokenOf(flags, args[0]).Bad? && all != [] && all[0] == args[0]
    ensures Parse(flags, all) == Usage && Intended(flags, args) == Usage
  {
    hide TokenOf;
  }

  lemma {:induction false} HeadIsParsed(flags: Flags, args: seq<string>, next: seq<string>)
    requires HeadClean(flags, args)
    ensures Dash(args[0]) ==> Parse(flags, Moved(flags, args) + next) == HeadReading(flags, args, Parse(flags, next))
    ensures !Dash(args[0]) ==> Moved(flags, args) + next == next
  {
    hide TokenOf, ValueTakesNext;
    if Dash(args[0]) {
      var n := Turn(flags, args);
      var all := Moved(flags, args) + next;
      assert all[0] == args[0] && all[n..] == next && (n == 2 ==> all[1] == args[1]);
    }
  }

  lemma {:induction false} HeadBefore(flags: Flags, args: seq<string>, r: Reading, next: Reading)
    requires HeadClean(flags, args)
    ensures Before(HeadReading(flags, args, r), next) == if Dash(args[0]) then HeadReading(flags, args, Before(r, next)) else Before(r, next)
  {
    hide TokenOf, ValueTakesNext;
    if Dash(args[0]) && r.Read? && next.Read? {
      var s := HeadReading(flags, args, Read([], [])).settings;
      assert s + (r.settings + next.settings) == s + r.settings + next.settings;
    }
  }

  /**
   * After a "--", exactly: the meaning is kept if and only if a positional stands before the "--", or what
   * follows it does not begin with something that looks like a flag. The "--" itself is dropped.
   */
  lemma {:induction false} DashDashKeptIff(flags: Flags, first: seq<string>, tail: seq<string>)
    requires Named(flags) && Clean(flags, first) && Intended(flags, first).Read?
    ensures Parse(flags, Reordered(ValueFlags(flags), first + ["--"] + tail)) == Intended(flags, first + ["--"] + tail)
        <==> Back(ValueFlags(flags), first) != [] || tail == [] || !FlagLike(tail[0])
  {
    var rest := ["--"] + tail;
    assert first + ["--"] + tail == first + rest && (tail != [] ==> rest[1] == tail[0]);
    AfterClean(flags, first, rest, []);
    MeaningKeptIff(flags, first + rest);
  }

  lemma {:induction false} MissingIsLast(flags: Flags, first: seq<string>, flag: string)
    requires Clean(flags, first) && Intended(flags, first).Read? && FlagLike(flag) && flag != "--" && TokenOf(flags, flag).Needs?
    ensures Intended(flags, first + [flag]) == Usage
    ensures var back := Back(ValueFlags(flags), first);
            && Reordered(ValueFlags(flags), first + [flag]) == Front(ValueFlags(flags), first) + ([flag] + back)
            && forall p :: p in back ==> !Dash(p)
  {
    hide Front, Back, Intended, Clean, TokenOf, Kept;
    AfterClean(flags, first, [flag], []);
    LastFlag(flags, flag);
    var f, back := Front(ValueFlags(flags), first), Back(ValueFlags(flags), first);
    assert f + [flag] + (back + []) == f + ([flag] + back);
  }

  /** A flag left without its value takes the first positional instead; only without positionals is it an error. */
  lemma {:induction false} MissingValueTakesPositional(flags: Flags, first: seq<string>, flag: string)
    requires Clean(flags, first) && Intended(flags, first).Read? && FlagLike(flag) && flag != "--" && TokenOf(flags, flag).Needs?
    ensures Intended(flags, first + [flag]) == Usage
    ensures var back := Back(ValueFlags(flags), first); var s := Intended(flags, first).settings;
            Parse(flags, Reordered(ValueFlags(flags), first + [flag]))
            == if back == [] then Usage else Read(s + [(TokenOf(flags, flag).name, back[0])], back[1..])
  {
    hide Front, Back, Intended, Clean, TokenOf, Parse;
    MissingIsLast(flags, first, flag);
    var back := Back(ValueFlags(flags), first);
    FrontReadsAsIntended(flags, first, [flag] + back);
    ParseNeeds(flags, flag, back);
    if back != [] {
      if |back| > 1 { assert back[1..][0] == back[1] && back[1] in back; }
      ParseStops(flags, back[1..]);
    }
  }

  /** A lone "-" keeps its meaning exactly when no positional stands before it and no flag after it. */
  lemma {:induction false} LoneDashKeptIff(flags: Flags, first: seq<string>, last: seq<string>)
    requires Named(flags) && Clean(flags, first) && Intended(flags, first).Read?
    ensures Parse(flags, Reordered(ValueFlags(flags), first + ["-"] + last)) == Intended(flags, first + ["-"] + last)
        <==> Back(ValueFlags(flags), first) == [] && DashesFirst(last)
  {
    var rest := ["-"] + last;
    assert first + ["-"] + last == first + rest && rest[1..] == last;
    AfterClean(flags, first, rest, []);
    MeaningKeptIff(flags, first + rest);
  }

  /**
   * A value that looks like a flag and takes the next argument along: the meaning is kept exactly when no flag follows
   * and either nothing but that argument stands among the positionals before, or none do.
   */
  lemma {:induction false} TakingValueKeptIff(flags: Flags, first: seq<string>, flag: string, value: string, next: string,
                                              last: seq<string>)
    requires Named(flags) && Clean(flags, first) && Intended(flags, first).Read?
    requires FlagLike(flag) && flag != "--" && TokenOf(flags, flag).Needs?
    requires value != "--" && ValueTakesNext(flags, [flag, value, next] + last)
    ensures var args, before := first + ([flag, value, next] + last), Back(ValueFlags(flags), first);
            Parse(flags, Reordered(ValueFlags(flags), args)) == Intended(flags, args) <==>
            (before == [] && DashesFirst(last)) || ((forall p :: p in before ==> p == next) && OnlyPositionals(last))
  {
    hide DashesFirst, OnlyPositionals;
    var rest := [flag, value, next] + last;
    assert rest[0] == flag && rest[1] == value && rest[2] == next && rest[3..] == last;
    AfterClean(flags, first, rest, []);
    MeaningKeptIff(flags, first + rest);
    hide TokenOf, Front, Back, Intended, Parse, Clean, ValueTakesNext;
    assert [] + Back(ValueFlags(flags), first) == Back(ValueFlags(flags), first);
  }

  const NUMBERS: Flags := map["n" := false, "x" := false, "m" := false]

  lemma {:induction false} NumberTokens()
    ensures TokenOf(NUMBERS, "-n") == Needs("n") && TokenOf(NUMBERS, "-x") == Needs("x") && TokenOf(NUMBERS, "-m") == Needs("m")
  {}

  /** A flag whose value looks like a flag and takes the next argument along. */
  lemma {:induction false} TakenAlong(last: seq<string>)
    ensures var args := ["-n", "-x", "p"] + last;
            && ValueTakesNext(NUMBERS, args) && Front(ValueFlags(NUMBERS), args) == ["-n", "-x", "p"] + Front(ValueFlags(NUMBERS), last)
            && Back(ValueFlags(NUMBERS), args) == Back(ValueFlags(NUMBERS), last)
            && Intended(NUMBERS, args) == Also("n", "-x", Positional("p", Intended(NUMBERS, last)))
            && forall more :: Parse(NUMBERS, ["-n", "-x", "p"] + more) == Read([("n", "-x")], ["p"] + more)
  {
    hide TokenOf;
    NumberTokens();
    var args := ["-n", "-x", "p"] + last;
    assert args[0] == "-n" && args[1] == "-x" && args[2] == "p" && args[3..] == last;
    assert args[1..][0] == "-x" && args[2..][0] == "p" && args[2..][1..] == last;
    TakesNextIffNeeds(NUMBERS, args[1..]);
    FrontOfValue(NUMBERS, args);
    assert args[..2] == ["-n", "-x"];
    forall more ensures Parse(NUMBERS, ["-n", "-x", "p"] + more) == Read([("n", "-x")], ["p"] + more) {
      var all := ["-n", "-x", "p"] + more;
      assert all[2..] == ["p"] + more;
      ParseStops(NUMBERS, ["p"] + more);
    }
  }

  /** Two command lines that give every value flag its value and still are misread: a moved positional, a lost setting. */
  lemma {:induction false} MovedPositional()
    ensures Intended(NUMBERS, ["a", "-n", "-x", "p"]) == Read([("n", "-x")], ["a", "p"])
    ensures Parse(NUMBERS, Reordered(ValueFlags(NUMBERS), ["a", "-n", "-x", "p"])) == Read([("n", "-x")], ["p", "a"])
  {
    hide TokenOf, Parse;
    TakenAlong([]);
    var args, rest := ["a", "-n", "-x", "p"], ["-n", "-x", "p"] + [];
    assert args[1..] == rest;
    assert Reordered(ValueFlags(NUMBERS), args) == ["-n", "-x", "p"] + ["a"];
  }

  lemma {:induction false} LostSetting()
    ensures Intended(NUMBERS, ["-n", "-x", "p", "-m", "1"]) == Read([("n", "-x"), ("m", "1")], ["p"])
    ensures Parse(NUMBERS, Reordered(ValueFlags(NUMBERS), ["-n", "-x", "p", "-m", "1"])) == Read([("n", "-x")], ["p", "-m", "1"])
  {
    hide TokenOf, Parse;
    var args, last := ["-n", "-x", "p", "-m", "1"], ["-m", "1"];
    NumberTokens();
    TakenAlong(last);
    FrontOfValue(NUMBERS, last);
    assert args == ["-n", "-x", "p"] + last && last[..2] == last && last[2..] == [];
    assert Intended(NUMBERS, last) == Read([("m", "1")], []);
    assert Reordered(ValueFlags(NUMBERS), args) == ["-n", "-x", "p"] + last;
  }

  // ---- Command lines as they are written ------------------------------------------------------------------------

  /** A name that can be written after one dash or two. */
  predicate PlainName(n: string) { n != "" && n[0] != '-' && '=' !in n }

  function Dashes(twice: bool): string { if twice then "--" else "-" }

  /** What the spellings of a flag are to the parser: alone, and with a value after "=". */
  lemma {:induction false} TokenSpelled(flags: Flags, n: string, v: string, twice: bool)
    requires PlainName(n)
    ensures var s := Dashes(twice) + n;
            FlagLike(s) && TokenOf(flags, s) == if n !in flags then Bad else if flags[n] then Complete(n, "true") else Needs(n)
    ensures var s := Dashes(twice) + n + "=" + v;
            FlagLike(s) && TokenOf(flags, s) == if n !in flags then Bad else Complete(n, v)
  {
    var alone, joined := Dashes(twice) + n, Dashes(twice) + n + "=" + v;
    assert alone[|Dashes(twice)|] == n[0] == joined[|Dashes(twice)|];
    assert NameText(alone) == n;
    var text := NameText(joined);
    assert text == n + "=" + v;
    assert forall k :: 0 <= k < |n| ==> text[k] == n[k] && n[k] in n;
    assert text[|n|] == '=' && text[..|n|] == n && text[|n| + 1..] == v;
    assert EqualsFrom(n, 1).None?;
    assert EqualsFrom(text, 1) == Some(|n|);
  }

  /** And the parser takes nothing else for a flag. */
  lemma {:induction false} TokenIsSpelled(flags: Flags, s: string) returns (n: string, v: string, twice: bool)
    requires FlagLike(s) && !TokenOf(flags, s).Bad?
    ensures PlainName(n) && n in flags && (s == Dashes(twice) + n || s == Dashes(twice) + n + "=" + v)
  {
    hide *;
    twice := SecondIsDash(s);
    n, v := TextIsSpelled(flags, s);
    if NameText(s) == n + "=" + v { JoinFour(Dashes(twice), n, "=", v); }
  }

  lemma {:induction false} SecondIsDash(s: string) returns (twice: bool)
    requires FlagLike(s)
    ensures s == Dashes(twice) + NameText(s)
  {
    twice := s[1] == '-';
    DashesFirstInText(s);
  }

  lemma {:induction false} JoinFour<T>(a: seq<T>, b: seq<T>, c: seq<T>, d: seq<T>)
    ensures a + (b + c + d) == a + b + c + d
  {}

  lemma {:induction false} TextIsSpelled(flags: Flags, s: string) returns (n: string, v: string)
    requires FlagLike(s) && !TokenOf(flags, s).Bad?
    ensures PlainName(n) && n in flags && (NameText(s) == n || NameText(s) == n + "=" + v)
  {
    hide NameText;
    var text := NameText(s);
    var eq := EqualsFrom(text, 1);
    if eq.Some? {
      n, v := text[..eq.value], text[eq.value + 1..];
      assert text[eq.value] == '=';
    } else {
      n, v := text, "";
    }
  }

  lemma {:induction false} DashesFirstInText(s: string)
    requires FlagLike(s)
    ensures s == Dashes(s[1] == '-') + NameText(s)
  {}

  /** A piece of a command line: a positional, a switch, or a flag with its value joined to it or after it. */
  datatype Item = Word(arg: string) | Switch(name: string, twice: bool) | Joint(name: string, value: string, twice: bool)
                | Spaced(name: string, value: string, twice: bool)

  function Args(x: Item): seq<string> {
    match x
    case Word(arg) => [arg]
    case Switch(name, twice) => [Dashes(twice) + name]
    case Joint(name, value, twice) => [Dashes(twice) + name + "=" + value]
    case Spaced(name, value, twice) => [Dashes(twice) + name, value]
  }

  function Line(items: seq<Item>): seq<string> { if items == [] then [] else Args(items[0]) + Line(items[1..]) }

  /** Positionals and separate values do not begin with a dash; every flag is registered and written as its kind asks. */
  predicate Proper(flags: Flags, x: Item) {
    match x
    case Word(arg) => arg == "" || arg[0] != '-'
    case Switch(name, _) => PlainName(name) && name in flags && flags[name]
    case Joint(name, _, _) => PlainName(name) && name in flags
    case Spaced(name, value, _) => PlainName(name) && name in flags && !flags[name] && (value == "" || value[0] != '-')
  }

  function Settings(items: seq<Item>): seq<(string, string)> {
    if items == [] then []
    else (match items[0]
          case Word(_) => []
          case Switch(name, _) => [(name, "true")]
          case Joint(name, value, _) => [(name, value)]
          case Spaced(name, value, _) => [(name, value)]) + Settings(items[1..])
  }

  function Positionals(items: seq<Item>): seq<string> {
    if items == [] then [] else (if items[0].Word? then [items[0].arg] else []) + Positionals(items[1..])
  }

  lemma {:induction false} ProperHead(flags: Flags, x: Item, rest: seq<string>)
    requires Proper(flags, x)
    ensures var args := Args(x) + rest;
            && HeadClean(flags, args) && args[Turn(flags, args)..] == rest
            && Intended(flags, args) ==
               match x
               case Word(arg) => Positional(arg, Intended(flags, rest))
               case Switch(name, _) => Also(name, "true", Intended(flags, rest))
               case Joint(name, value, _) => Also(name, value, Intended(flags, rest))
               case Spaced(name, value, _) => Also(name, value, Intended(flags, rest))
  {
    hide TokenOf;
    var args := Args(x) + rest;
    match x
    case Word(arg) =>
      assert args[1..] == rest;
    case Switch(name, twice) =>
      TokenSpelled(flags, name, "", twice);
      NoStop(name, "", twice);
      assert args[1..] == rest;
    case Joint(name, value, twice) =>
      TokenSpelled(flags, name, value, twice);
      NoStop(name, value, twice);
      assert args[1..] == rest;
    case Spaced(name, value, twice) =>
      TokenSpelled(flags, name, "", twice);
      NoStop(name, "", twice);
      assert args[2..] == rest && args[1] == value;
  }

  lemma {:induction false} NoStop(n: string, v: string, twice: bool)
    requires PlainName(n)
    ensures Dashes(twice) + n !in {"-", "--"} && Dashes(twice) + n + "=" + v !in {"-", "--"}
  {
    assert (Dashes(twice) + n)[|Dashes(twice)|] == n[0] == (Dashes(twice) + n + "=" + v)[|Dashes(twice)|];
  }

  lemma {:induction false} LineIsClean(flags: Flags, items: seq<Item>)
    requires forall x :: x in items ==> Proper(flags, x)
    ensures Clean(flags, Line(items))
    ensures Intended(flags, Line(items)) == Read(Settings(items), Positionals(items))
  {
    hide HeadClean, Proper, TokenOf;
    if items != [] {
      LineIsClean(flags, items[1..]);
      ProperHead(flags, items[0], Line(items[1..]));
    }
  }

  /**
   * A command line of proper pieces in any order, reordered and then parsed, gives back exactly what was written: every
   * flag with its value, in order, and the positionals in order.
   */
  lemma {:induction false} LineReadsBack(flags: Flags, items: seq<Item>)
    requires Named(flags) && forall x :: x in items ==> Proper(flags, x)
    ensures Parse(flags, Reordered(ValueFlags(flags), Line(items))) == Read(Settings(items), Positionals(items))
  {
    LineIsClean(flags, items);
    ReorderingKeepsMeaning(flags, Line(items));
  }

  lemma {:induction false} ErrorAfter(flags: Flags, x: Item, rest: seq<string>)
    requires Proper(flags, x) && Clean(flags, rest) && Intended(flags, rest) == Usage
    ensures Clean(flags, Args(x) + rest) && Intended(flags, Args(x) + rest) == Usage
  {
    hide HeadClean, Proper, TokenOf;
    ProperHead(flags, x, rest);
  }

  lemma {:induction false} LineThenError(flags: Flags, items: seq<Item>, last: seq<string>)
    requires forall x :: x in items ==> Proper(flags, x)
    requires Clean(flags, last) && Intended(flags, last) == Usage
    ensures Clean(flags, Line(items) + last) && Intended(flags, Line(items) + last) == Usage
  {
    hide Clean, Intended, Proper, Args;
    if items == [] {
      assert Line(items) + last == last;
    } else {
      LineThenError(flags, items[1..], last);
      ErrorAfter(flags, items[0], Line(items[1..]) + last);
      assert Line(items) + last == Args(items[0]) + (Line(items[1..]) + last);
    }
  }

  lemma {:induction false} BadHead(flags: Flags, bad: string, rest: seq<string>)
    requires FlagLike(bad) && bad != "--" && TokenOf(flags, bad).Bad?
    ensures Clean(flags, [bad] + rest) && Intended(flags, [bad] + rest) == Usage
  {
    hide TokenOf;
  }

  /** A flag that is not registered is a usage error wherever it stands among proper pieces, before and after reordering. */
  lemma {:induction false} WrongFlagIsRefused(flags: Flags, items: seq<Item>, bad: string, rest: seq<string>)
    requires Named(flags) && forall x :: x in items ==> Proper(flags, x)
    requires FlagLike(bad) && bad != "--" && TokenOf(flags, bad).Bad?
    ensures Parse(flags, Reordered(ValueFlags(flags), Line(items) + ([bad] + rest))) == Usage
  {
    BadHead(flags, bad, rest);
    LineThenError(flags, items, [bad] + rest);
    ReorderingKeepsMeaning(flags, Line(items) + ([bad] + rest));
  }
}
