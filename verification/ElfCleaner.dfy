/** tunnel/tools/elf-cleaner/elf-cleaner.cpp: the loop over a dynamic section that takes out the entries
    the Android linker complains about. */
module ElfCleaner {
  const DT_NULL := 0
  const DT_RPATH := 15
  const DT_RUNPATH := 29
  const DT_GNU_HASH := 0x6ffffef5
  const DT_VERSYM := 0x6ffffff0
  const DT_FLAGS_1 := 0x6ffffffb
  const DT_VERDEF := 0x6ffffffc
  const DT_VERDEFNUM := 0x6ffffffd
  const DT_VERNEEDED := 0x6ffffffe
  const DT_VERNEEDNUM := 0x6fffffff
  const DT_AARCH64_BTI_PLT := 0x70000001
  const DT_AARCH64_PAC_PLT := 0x70000003
  const DT_AARCH64_VARIANT_PCS := 0x70000005

  datatype Dyn = Dyn(tag: int, val: bv64)

  function Supported(flags: bv64, supported: bv64): bv64 { flags & supported }

  lemma SupportedTwice(flags: bv64, supported: bv64)
    ensures Supported(Supported(flags, supported), supported) == Supported(flags, supported)
  {
  }

  /** What the program is run for: the API level, the machine and the flags it supports. */
  datatype Target = Target(apiLevel: int, aarch64: bool, supported: bv64) {
    predicate Removes(tag: int) {
      || (apiLevel < 23 && (tag == DT_GNU_HASH || tag == DT_VERSYM || tag == DT_VERNEEDED || tag == DT_VERNEEDNUM
                            || tag == DT_VERDEF || tag == DT_VERDEFNUM))
      || tag == DT_RPATH
      || (apiLevel < 24 && tag == DT_RUNPATH)
      || (aarch64 && apiLevel < 31
          && (tag == DT_AARCH64_BTI_PLT || tag == DT_AARCH64_PAC_PLT || tag == DT_AARCH64_VARIANT_PCS))
    }

    /** What becomes of one entry, wherever it ends up. */
    function Clean(e: Dyn): Dyn {
      if Removes(e.tag) then e.(tag := DT_NULL)
      else if e.tag == DT_FLAGS_1 then e.(val := Supported(e.val, supported))
      else e
    }
  }

  function CleanAll(t: Target, s: seq<Dyn>): (r: seq<Dyn>)
    ensures |r| == |s|
    ensures forall i :: 0 <= i < |s| ==> r[i] == t.Clean(s[i])
  {
    seq(|s|, i requires 0 <= i < |s| => t.Clean(s[i]))
  }

  /** Cleaning leaves nothing to clean. */
  lemma CleanTwice(t: Target, e: Dyn)
    ensures t.Clean(t.Clean(e)) == t.Clean(e) && !t.Removes(t.Clean(e).tag)
  {
    hide Supported;
    SupportedTwice(e.val, t.supported);
  }

  /** The entries before the terminator. */
  predicate Prefix(s: seq<Dyn>) {
    forall i, k :: 0 <= i < k < |s| && s[k].tag != DT_NULL ==> s[i].tag != DT_NULL
  }

  lemma Swapped<T>(s: seq<T>, i: nat, j: nat)
    requires i < |s| && j < |s|
    ensures multiset(s[i := s[j]][j := s[i]]) == multiset(s)
  {
  }

  /** Null entry j, and swap it with entry `last`. */
  function TakeOut(s: seq<Dyn>, j: nat, last: nat): (r: seq<Dyn>)
    requires j <= last < |s|
    ensures |r| == |s|
  {
    s[j := s[last]][last := s[j].(tag := DT_NULL)]
  }

  lemma TakeOutCleans(t: Target, s: seq<Dyn>, j: nat, last: nat)
    requires j <= last < |s| && t.Removes(s[j].tag)
    ensures multiset(CleanAll(t, TakeOut(s, j, last))) == multiset(CleanAll(t, s))
  {
    var c := CleanAll(t, s);
    assert CleanAll(t, TakeOut(s, j, last)) == c[j := c[last]][last := c[j]];
    Swapped(c, j, last);
  }

  // ---- One pass ----

  /** No entry from `past` on. */
  ghost predicate NullFrom(s: seq<Dyn>, past: int) {
    forall k :: 0 <= k < |s| && past <= k ==> s[k].tag == DT_NULL
  }

  ghost predicate Full(s: seq<Dyn>, past: int) {
    forall k :: 0 <= k < |s| && k < past ==> s[k].tag != DT_NULL
  }

  /** Entries before j are clean, entries after `last` are null, and what the section will be
      has not changed. */
  ghost predicate Progress(t: Target, s0: seq<Dyn>, s: seq<Dyn>, j: int, last: int) {
    && |s| == |s0| && 0 <= j <= |s| && -1 <= last < |s| && NullFrom(s, last + 1)
    && (forall k :: 0 <= k < j ==> t.Clean(s[k]) == s[k])
    && multiset(CleanAll(t, s)) == multiset(CleanAll(t, s0))
    && (Prefix(s0) ==> Full(s, last + 1) || NullFrom(s, 0))
    && (CleanAll(t, s0) == s0 ==> s == s0)
  }

  lemma Begin(t: Target, s: seq<Dyn>, last: nat)
    requires last < |s| && NullFrom(s, last + 1) && (last > 0 ==> s[last].tag != DT_NULL)
    ensures Progress(t, s, s, 0, last)
  {
  }

  lemma RemoveStep(t: Target, s0: seq<Dyn>, s: seq<Dyn>, j: int, last: int)
    requires Progress(t, s0, s, j, last) && j < |s| && t.Removes(s[j].tag)
    ensures j <= last && Progress(t, s0, TakeOut(s, j, last), j, last - 1)
  {
    hide CleanAll, Supported;
    TakeOutCleans(t, s, j, last);
    assert CleanAll(t, s0)[j] == t.Clean(s0[j]);
  }

  lemma KeepStep(t: Target, s0: seq<Dyn>, s: seq<Dyn>, j: int, last: int)
    requires Progress(t, s0, s, j, last) && j < |s| && !t.Removes(s[j].tag)
    ensures Progress(t, s0, s[j := t.Clean(s[j])], j + 1, last)
  {
    CleanTwice(t, s[j]);
    assert CleanAll(t, s[j := t.Clean(s[j])]) == CleanAll(t, s);
    if CleanAll(t, s0) == s0 {
      assert CleanAll(t, s0)[j] == t.Clean(s0[j]);
    }
  }

  lemma Finish(t: Target, s0: seq<Dyn>, s: seq<Dyn>, last: int)
    requires Progress(t, s0, s, |s|, last)
    ensures multiset(s) == multiset(CleanAll(t, s0))
    ensures forall k :: 0 <= k < |s| ==> t.Clean(s[k]) == s[k] && !t.Removes(s[k].tag)
    ensures Prefix(s0) ==> Prefix(s)
    ensures CleanAll(t, s0) == s0 ==> s == s0
  {
    assert CleanAll(t, s) == s;
    forall k | 0 <= k < |s| ensures !t.Removes(s[k].tag) {
      CleanTwice(t, s[k]);
    }
  }

  method LastEntry(a: array<Dyn>) returns (last: nat)
    requires a.Length >= 1
    ensures last < a.Length && forall k :: last < k < a.Length ==> a[k].tag == DT_NULL
    ensures last > 0 ==> a[last].tag != DT_NULL
  {
    last := 0;
    var j := a.Length - 1;
    while j > 0
      invariant 0 <= j < a.Length && forall k :: j < k < a.Length ==> a[k].tag == DT_NULL
    {
      if a[j].tag != DT_NULL {
        return j;
      }
      j := j - 1;
    }
  }

  method RemoveEntry(a: array<Dyn>, j: nat, last: nat)
    requires j <= last < a.Length
    modifies a
    ensures a[..] == TakeOut(old(a[..]), j, last)
  {
    a[j] := a[j].(tag := DT_NULL);
    a[j], a[last] := a[last], a[j];
  }

  method MaskEntry(a: array<Dyn>, j: nat, t: Target)
    requires j < a.Length && !t.Removes(a[j].tag)
    modifies a
    ensures a[..] == old(a[..])[j := t.Clean(old(a[j]))]
  {
    hide Supported, Target.Removes;
    if a[j].tag == DT_FLAGS_1 {
      var masked := Supported(a[j].val, t.supported);
      if masked != a[j].val {
        a[j] := a[j].(val := masked);
      }
    }
  }

  /** The section afterwards holds exactly the cleaned entries, in some order. So none to be
      removed is left; and if the entries came before the terminator, they still do. A section
      that needs no cleaning is left as it is. */
  method CleanSection(a: array<Dyn>, t: Target)
    requires a.Length >= 1
    modifies a
    ensures multiset(a[..]) == multiset(CleanAll(t, old(a[..])))
    ensures forall k :: 0 <= k < a.Length ==> t.Clean(a[k]) == a[k] && !t.Removes(a[k].tag)
    ensures Prefix(old(a[..])) ==> Prefix(a[..])
    ensures CleanAll(t, old(a[..])) == old(a[..]) ==> a[..] == old(a[..])
  {
    hide Progress, CleanAll, Prefix, TakeOut;
    ghost var s0 := a[..];
    ghost var s := s0;
    var l := LastEntry(a);
    var last: int := l;
    Begin(t, s0, l);
    var j := 0;
    while j < a.Length
      invariant 0 <= j <= a.Length && -1 <= last < a.Length && s == a[..] && Progress(t, s0, s, j, last)
      decreases a.Length - j + last + 1
    {
      if t.Removes(a[j].tag) {
        RemoveStep(t, s0, s, j, last);
        RemoveEntry(a, j, last);
        s := TakeOut(s, j, last);
        last := last - 1;
      } else {
        KeepStep(t, s0, s, j, last);
        MaskEntry(a, j, t);
        s := s[j := t.Clean(s[j])];
        j := j + 1;
      }
    }
    Finish(t, s0, s, last);
  }

  /** Cleaning again changes nothing. */
  method CleanSectionTwice(a: array<Dyn>, t: Target) returns (once: seq<Dyn>)
    requires a.Length >= 1
    modifies a
    ensures multiset(once) == multiset(CleanAll(t, old(a[..]))) && a[..] == once
  {
    hide Prefix;
    CleanSection(a, t);
    once := a[..];
    assert CleanAll(t, once) == once;
    CleanSection(a, t);
  }
}
