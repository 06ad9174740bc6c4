/** tunnel/tools/wireguard-tools/src/wg-quick/android.c, set_users: the uid ranges a tunnel applies to, in
    commands of at most 18 ranges. */
module SetUsers {
  import opened Wrappers

  datatype Range = Range(lo: nat, hi: nat)

  const PER_COMMAND := 18
  const LAST_UID := 99999

  ghost predicate In(r: Range, x: int) { r.lo <= x <= r.hi }

  ghost predicate Covers(rs: seq<Range>, x: int) { exists k :: 0 <= k < |rs| && In(rs[k], x) }

  /** Non-empty, ascending and apart from each other. */
  predicate Ascending(rs: seq<Range>) {
    && (forall k :: 0 <= k < |rs| ==> rs[k].lo <= rs[k].hi)
    && (forall i, k :: 0 <= i < k < |rs| ==> rs[i].hi + 1 < rs[k].lo)
  }

  predicate Sorted(uids: seq<nat>) { forall i, k :: 0 <= i < k < |uids| ==> uids[i] <= uids[k] }

  function Flat(commands: seq<seq<Range>>): seq<Range> {
    if commands == [] then [] else Flat(commands[..|commands| - 1]) + commands[|commands| - 1]
  }

  lemma FlatSnoc(commands: seq<seq<Range>>, c: seq<Range>)
    ensures Flat(commands + [c]) == Flat(commands) + c
  {
    assert (commands + [c])[..|commands|] == commands;
  }

  /** Every command has something to say and not too much. */
  predicate Sized(commands: seq<seq<Range>>) {
    forall k :: 0 <= k < |commands| ==> 1 <= |commands[k]| <= PER_COMMAND
  }

  lemma CoversSnoc(rs: seq<Range>, r: Range, x: int)
    ensures Covers(rs + [r], x) <==> Covers(rs, x) || In(r, x)
  {
    if Covers(rs, x) {
      var k :| 0 <= k < |rs| && In(rs[k], x);
      assert In((rs + [r])[k], x);
    }
    if In(r, x) {
      assert In((rs + [r])[|rs|], x);
    }
    if Covers(rs + [r], x) {
      var k :| 0 <= k < |rs + [r]| && In((rs + [r])[k], x);
    }
  }

  /** Where the next range would start after the first i uids. */
  function StartAfter(uids: seq<nat>, i: nat): nat
    requires i <= |uids|
  {
    if i == 0 then 0 else uids[i - 1] + 1
  }

  /** The ranges so far are the complement of the first i uids, up to the last of these. */
  ghost predicate Complement(uids: seq<nat>, i: nat, rs: seq<Range>)
    requires i <= |uids|
  {
    && Ascending(rs) && (rs != [] ==> rs[|rs| - 1].hi + 1 < StartAfter(uids, i))
    && forall x :: Covers(rs, x) <==> 0 <= x < StartAfter(uids, i) && x !in uids[..i]
  }

  lemma NoUids(uids: seq<nat>)
    ensures Complement(uids, 0, [])
  {
  }

  lemma SkipUid(uids: seq<nat>, i: nat, rs: seq<Range>)
    requires i < |uids| && Sorted(uids) && Complement(uids, i, rs) && StartAfter(uids, i) >= uids[i]
    ensures Complement(uids, i + 1, rs)
  {
    assert uids[..i + 1] == uids[..i] + [uids[i]];
    forall x ensures Covers(rs, x) <==> 0 <= x < StartAfter(uids, i + 1) && x !in uids[..i + 1] {
      if x == uids[i] && i > 0 {
        assert uids[i - 1] in uids[..i];
      }
    }
  }

  lemma AddRange(uids: seq<nat>, i: nat, rs: seq<Range>)
    requires i < |uids| && Sorted(uids) && Complement(uids, i, rs) && StartAfter(uids, i) < uids[i]
    ensures Complement(uids, i + 1, rs + [Range(StartAfter(uids, i), uids[i] - 1)])
  {
    var start := StartAfter(uids, i);
    var r := Range(start, uids[i] - 1);
    assert uids[..i + 1] == uids[..i] + [uids[i]];
    forall x ensures Covers(rs + [r], x) <==> 0 <= x < StartAfter(uids, i + 1) && x !in uids[..i + 1] {
      CoversSnoc(rs, r, x);
      Below(uids, i, x);
    }
  }

  lemma Below(uids: seq<nat>, i: nat, x: int)
    requires i <= |uids| && Sorted(uids)
    ensures x in uids[..i] ==> x < StartAfter(uids, i)
  {
  }

  /** Add a range to the current command, and send it when it is full. */
  method Emit(commands: seq<seq<Range>>, ranges: seq<Range>, r: Range, args: nat)
    returns (commands': seq<seq<Range>>, ranges': seq<Range>, args': nat)
    requires Sized(commands) && |ranges| == args % PER_COMMAND
    ensures Sized(commands') && |ranges'| == args' % PER_COMMAND && args' == args + 1
    ensures Flat(commands') + ranges' == Flat(commands) + ranges + [r]
  {
    hide Flat, Sized;
    commands', ranges', args' := commands, ranges + [r], args + 1;
    NextArg(args);
    assert Flat(commands) + (ranges + [r]) == Flat(commands) + ranges + [r];
    if args' % PER_COMMAND == 0 {
      FlatSnoc(commands, ranges');
      SizedSnoc(commands, ranges');
      commands' := commands' + [ranges'];
      ranges' := [];
    }
  }

  lemma NextArg(args: nat)
    ensures (args + 1) % PER_COMMAND == if args % PER_COMMAND == 17 then 0 else args % PER_COMMAND + 1
  {
  }

  lemma SizedSnoc(commands: seq<seq<Range>>, c: seq<Range>)
    requires Sized(commands) && 1 <= |c| <= PER_COMMAND
    ensures Sized(commands + [c])
  {
  }

  /** The excluded applications' branch. */
  method Exclude(uids: seq<nat>) returns (commands: seq<seq<Range>>, ranges: seq<Range>)
    requires Sorted(uids) && forall i :: 0 <= i < |uids| ==> 1 <= uids[i] < 0xffff_ffff
    ensures Sized(commands) && |ranges| <= PER_COMMAND && Ascending(Flat(commands) + ranges)
    ensures var start := StartAfter(uids, |uids|);
      forall x :: Covers(Flat(commands) + ranges, x) <==>
        0 <= x && x !in uids && (x < start || (start < LAST_UID && x <= LAST_UID))
  {
    hide Sized, Flat, Covers, Ascending, Complement;
    commands, ranges := [], [];
    var args, start, i := 0, 0, 0;
    NothingSent();
    NoUids(uids);
    while i < |uids|
      invariant 0 <= i <= |uids| && start == StartAfter(uids, i)
      invariant Sized(commands) && |ranges| == args % PER_COMMAND
      invariant Complement(uids, i, Flat(commands) + ranges)
    {
      ghost var rs := Flat(commands) + ranges;
      if start > uids[i] - 1 {
        SkipUid(uids, i, rs);
      } else {
        AddRange(uids, i, rs);
        commands, ranges, args := Emit(commands, ranges, Range(start, uids[i] - 1), args);
        assert Flat(commands) + ranges == rs + [Range(start, uids[i] - 1)];
      }
      start := uids[i] + 1;
      i := i + 1;
    }
    LastRange(uids, Flat(commands) + ranges);
    if start < LAST_UID {
      assert Flat(commands) + (ranges + [Range(start, LAST_UID)]) == Flat(commands) + ranges + [Range(start, LAST_UID)];
      ranges := ranges + [Range(start, LAST_UID)];
    }
  }

  /** The included applications' branch: each uid is its own range. */
  method Include(uids: seq<nat>) returns (commands: seq<seq<Range>>, ranges: seq<Range>)
    ensures Sized(commands) && |ranges| <= PER_COMMAND
    ensures Flat(commands) + ranges == Singles(uids)
  {
    hide Sized, Flat;
    commands, ranges := [], [];
    var args, i := 0, 0;
    NothingSent();
    while i < |uids|
      invariant 0 <= i <= |uids| && Sized(commands) && |ranges| == args % PER_COMMAND
      invariant Flat(commands) + ranges == Singles(uids[..i])
    {
      assert Singles(uids[..i + 1]) == Singles(uids[..i]) + [Range(uids[i], uids[i])];
      commands, ranges, args := Emit(commands, ranges, Range(uids[i], uids[i]), args);
      i := i + 1;
    }
    assert uids[..i] == uids;
  }

  function Singles(uids: seq<nat>): (rs: seq<Range>)
    ensures |rs| == |uids|
  {
    seq(|uids|, i requires 0 <= i < |uids| => Range(uids[i], uids[i]))
  }

  /** set_users. The uid lists are what get_uid_list finds for the two application lists; no
      application at all counts as an empty exclusion. None when both are given. */
  method SetUsers(excluded: Option<seq<nat>>, included: Option<seq<nat>>) returns (r: Option<seq<seq<Range>>>)
    requires excluded.Some? ==>
      Sorted(excluded.value) && forall i :: 0 <= i < |excluded.value| ==> 1 <= excluded.value[i] < 0xffff_ffff
    ensures r.None? <==> excluded.Some? && included.Some?
    ensures r.Some? ==> Sized(r.value)
    ensures r.Some? && included.Some? ==> Flat(r.value) == Singles(included.value)
    ensures r.Some? && included.None? ==>
      var uids := if excluded.Some? then excluded.value else [];
      var start := StartAfter(uids, |uids|);
      Ascending(Flat(r.value)) && forall x :: Covers(Flat(r.value), x) <==>
        0 <= x && x !in uids && (x < start || (start < LAST_UID && x <= LAST_UID))
  {
    hide Sized, Flat, Covers, Ascending;
    if excluded.Some? && included.Some? {
      return None;
    }
    var commands, ranges;
    if excluded.Some? || included.None? {
      commands, ranges := Exclude(if excluded.Some? then excluded.value else []);
    } else {
      commands, ranges := Include(included.value);
    }
    if ranges != [] {
      FlatSnoc(commands, ranges);
      SizedSnoc(commands, ranges);
      commands := commands + [ranges];
    } else {
      assert Flat(commands) + ranges == Flat(commands);
    }
    r := Some(commands);
  }

  /** Among uids up to 99999, the ranges are exactly the complement, unless 99998 is the last of
      those excluded: then 99999 is left out as well. */
  lemma ComplementIffNotLast(uids: seq<nat>, rs: seq<Range>)
    requires Sorted(uids) && forall i :: 0 <= i < |uids| ==> 1 <= uids[i] <= LAST_UID
    requires var start := StartAfter(uids, |uids|);
      forall x :: Covers(rs, x) <==> 0 <= x && x !in uids && (x < start || (start < LAST_UID && x <= LAST_UID))
    ensures (forall x :: Covers(rs, x) <==> 0 <= x <= LAST_UID && x !in uids)
       <==> !(uids != [] && uids[|uids| - 1] == LAST_UID - 1)
    ensures forall x :: x != LAST_UID ==> (Covers(rs, x) <==> 0 <= x <= LAST_UID && x !in uids)
  {
    hide Covers;
    var start := StartAfter(uids, |uids|);
    forall x ensures x in uids ==> x < start {
      assert uids[..|uids|] == uids;
      Below(uids, |uids|, x);
    }
    if uids != [] && uids[|uids| - 1] == LAST_UID - 1 {
      assert !Covers(rs, LAST_UID);
    }
  }

  lemma NothingSent()
    ensures Flat([]) + [] == [] && Sized([])
  {
  }

  lemma LastRange(uids: seq<nat>, rs: seq<Range>)
    requires Sorted(uids) && Complement(uids, |uids|, rs)
    ensures var start := StartAfter(uids, |uids|);
      var rs' := if start < LAST_UID then rs + [Range(start, LAST_UID)] else rs;
      Ascending(rs') && forall x :: Covers(rs', x) <==>
        0 <= x && x !in uids && (x < start || (start < LAST_UID && x <= LAST_UID))
  {
    var start := StartAfter(uids, |uids|);
    assert uids[..|uids|] == uids;
    if start < LAST_UID {
      var r := Range(start, LAST_UID);
      forall x ensures Covers(rs + [r], x) <==> 0 <= x && x !in uids && x <= LAST_UID {
        CoversSnoc(rs, r, x);
        Below(uids, |uids|, x);
      }
    }
  }
}
