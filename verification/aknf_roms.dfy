/** The curated-list extractor: prints, in file order, every key of the
    `AllKillerNoFillerRoms` section whose value reads as a true boolean. */
module AknfRoms {
  import opened Common
  import opened Seqs
  import opened Text
  import opened Ini

  /** Why a run stops early: the section is absent (a KeyError), or a value is
      not a boolean literal (a ValueError). */
  datatype Abort = MissingSection | NotABoolean(key: string, value: string)

  /** What a run prints before it ends, and the error it ends with, if any. */
  datatype Run = Run(printed: seq<string>, aborted: Option<Abort>)

  /** The loop over the section: a key is printed as soon as its value reads
      true, and the first value that is no boolean ends the run. So a run prints
      the reference keys of the entries before the first non-boolean value, and
      ends with an error, naming that entry, exactly when there is one. */
  function PrintEnabled(s: Section): (r: Run)
    ensures var v := ValidPrefix(s);
            r == Run(TrueKeys(s[..v]), if v == |s| then None else Some(NotABoolean(s[v].0, s[v].1)))
  {
    if s == [] then Run([], None)
    else
      match ParseBool(s[0].1)
      case None => Run([], Some(NotABoolean(s[0].0, s[0].1)))
      case Some(b) =>
        var rest := PrintEnabled(s[1..]);
        assert s[..ValidPrefix(s)][1..] == s[1..][..ValidPrefix(s[1..])];
        TrueKeysCons(s[..ValidPrefix(s)]);
        Run((if b then [s[0].0] else []) + rest.printed, rest.aborted)
  }

  /** One run of the script on a configuration. */
  function ParseIniFile(cfg: Config): (r: Run)
    ensures r.aborted == Some(MissingSection) <==> AknfSectionName !in cfg
    ensures AknfSectionName !in cfg ==> r.printed == []
    ensures AknfSectionName in cfg ==> r == PrintEnabled(cfg[AknfSectionName])
  {
    if AknfSectionName in cfg then PrintEnabled(cfg[AknfSectionName])
    else Run([], Some(MissingSection))
  }

  /** Every value of the section is a boolean literal. */
  predicate AllBooleans(s: Section) {
    forall i :: 0 <= i < |s| ==> ParseBool(s[i].1).Some?
  }

  /** Per entry, the key when its value reads true. */
  function EnabledFlags(s: Section): (fs: seq<Option<string>>)
    ensures |fs| == |s|
    ensures forall i :: 0 <= i < |s| ==> fs[i] == if ParseBool(s[i].1) == Some(true) then Some(s[i].0) else None
  {
    seq(|s|, i requires 0 <= i < |s| => if ParseBool(s[i].1) == Some(true) then Some(s[i].0) else None)
  }

  /** Reference definition: the keys whose values read true, in section order. */
  function TrueKeys(s: Section): seq<string> {
    Somes(EnabledFlags(s))
  }

  lemma EnabledFlagsAppend(a: Section, b: Section)
    ensures EnabledFlags(a + b) == EnabledFlags(a) + EnabledFlags(b)
  {
    var fa, fb := EnabledFlags(a), EnabledFlags(b);
    forall i | 0 <= i < |a + b|
      ensures EnabledFlags(a + b)[i] == (fa + fb)[i]
    {
      if i < |a| {
        assert (a + b)[i] == a[i];
      } else {
        assert (a + b)[i] == b[i - |a|];
      }
    }
  }

  /** The reference keys of a section are those of its head entry followed by those of the rest. */
  lemma TrueKeysCons(s: Section)
    requires s != []
    ensures TrueKeys(s) == (if ParseBool(s[0].1) == Some(true) then [s[0].0] else []) + TrueKeys(s[1..])
  {
    var h := EnabledFlags([s[0]]);
    assert h[..0] == [];
    assert Somes(h) == (if ParseBool(s[0].1) == Some(true) then [s[0].0] else []);
    assert s == [s[0]] + s[1..];
    EnabledFlagsAppend([s[0]], s[1..]);
    SomesAppend(h, EnabledFlags(s[1..]));
  }

  /** A key is in the reference exactly when one of its entries reads true. */
  lemma TrueKeysMembers(s: Section, k: string)
    ensures k in TrueKeys(s) <==> exists i :: 0 <= i < |s| && s[i].0 == k && ParseBool(s[i].1) == Some(true)
  {
    var fs := EnabledFlags(s);
    SomesMembers(fs, k);
    if Some(k) in fs {
      var i :| 0 <= i < |fs| && fs[i] == Some(k);
      assert s[i].0 == k;
    }
    if exists i :: 0 <= i < |s| && s[i].0 == k && ParseBool(s[i].1) == Some(true) {
      var i :| 0 <= i < |s| && s[i].0 == k && ParseBool(s[i].1) == Some(true);
      assert fs[i] == Some(k);
    }
  }

  /** A section of booleans is printed in full: exactly the reference keys, with no error. */
  lemma PrintsTrueKeys(s: Section)
    requires AllBooleans(s)
    ensures PrintEnabled(s) == Run(TrueKeys(s), None)
  {
    assert s[..ValidPrefix(s)] == s;
  }

  /** The first value that is no boolean ends the run: what was printed is the
      reference keys of the entries before it, and the error names that entry. */
  lemma StopsAtFirstInvalid(s: Section, f: nat)
    requires f < |s| && ParseBool(s[f].1).None?
    requires forall i :: 0 <= i < f ==> ParseBool(s[i].1).Some?
    ensures PrintEnabled(s) == Run(TrueKeys(s[..f]), Some(NotABoolean(s[f].0, s[f].1)))
  {
    ValidPrefixAt(s, f);
  }

  /** The boolean prefix ends at the first value that is no boolean. */
  lemma {:induction false} ValidPrefixAt(s: Section, f: nat)
    requires f < |s| && ParseBool(s[f].1).None?
    requires forall i :: 0 <= i < f ==> ParseBool(s[i].1).Some?
    ensures ValidPrefix(s) == f
  {
    if f > 0 {
      assert ParseBool(s[0].1).Some?;
      assert forall i :: 0 <= i < f - 1 ==> s[1..][i] == s[i + 1];
      ValidPrefixAt(s[1..], f - 1);
    }
  }

  /** A run ends in error exactly when some value is no boolean literal. */
  lemma AbortsIffInvalid(s: Section)
    ensures PrintEnabled(s).aborted.Some? <==> !AllBooleans(s)
  {
  }

  /** Example: `c = true`, `a = false`, `b = true` prints `c` then `b`. */
  lemma ExampleRun()
    ensures ParseIniFile(map[AknfSectionName := [("c", "true"), ("a", "false"), ("b", "true")]])
            == Run(["c", "b"], None)
  {
    var s := [("c", "true"), ("a", "false"), ("b", "true")];
    assert LowerAscii("true") == "true";
    assert LowerAscii("false") == "false";
    assert s[1..][1..] == [("b", "true")];
  }

  /** How many entries, from the start, have boolean values. */
  function ValidPrefix(s: Section): (v: nat)
    ensures v <= |s|
    ensures forall i :: 0 <= i < v ==> ParseBool(s[i].1).Some?
    ensures v < |s| ==> ParseBool(s[v].1).None?
  {
    if s == [] || ParseBool(s[0].1).None? then 0 else 1 + ValidPrefix(s[1..])
  }

  /** Printed keys are section keys, in section order. */
  lemma PrintedInOrder(s: Section)
    ensures Subsequence(PrintEnabled(s).printed, Keys(s))
  {
    var v := ValidPrefix(s);
    var front, rest := s[..v], s[v..];
    assert s == front + rest;
    TrueKeysInOrder(front, rest);
    assert PrintEnabled(s).printed == TrueKeys(front);
  }

  /** The reference keys of a leading block of entries occur, in order, among the keys of the whole. */
  lemma TrueKeysInOrder(front: Section, rest: Section)
    ensures Subsequence(TrueKeys(front), Keys(front + rest))
  {
    SomesSubsequence(EnabledFlags(front), Keys(front));
    assert Keys(front + rest) == Keys(front) + Keys(rest);
    SubsequenceExtend(TrueKeys(front), Keys(front), Keys(rest));
  }
}
