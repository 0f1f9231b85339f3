/** Which archives and CHD folders the organiser hands to its copy step. File
    and directory existence are parameters: `archiveExists` answers for a file
    name under the ROM folder, `dirExists` for a folder name under the CHD folder.
    Results are those names; joining them onto the folders is left to the copy. */
module CopySelection {
  import opened Common
  import opened Seqs
  import opened Catalog
  import opened Ini
  import opened Subsystems

  /** A name as an f-string renders it: a null name becomes the text `None`. */
  function NameText(n: Name): string {
    match n
    case Some(s) => s
    case None => "None"
  }

  /** The archive file of a machine or key: `<name>.zip`. */
  function ArchiveName(text: string): string {
    text + ".zip"
  }

  /** Per record, its archive when it is primary for `sourcefile` and the archive exists. */
  function ArchiveFlags(ms: seq<Machine>, sourcefile: string, archiveExists: string -> bool): (fs: seq<Option<string>>)
    ensures |fs| == |ms|
    ensures forall i :: 0 <= i < |ms| ==>
              fs[i] == if IsPrimary(ms[i], sourcefile) && archiveExists(ArchiveName(NameText(ms[i].name)))
                       then Some(ArchiveName(NameText(ms[i].name))) else None
  {
    seq(|ms|, i requires 0 <= i < |ms| =>
      if IsPrimary(ms[i], sourcefile) && archiveExists(ArchiveName(NameText(ms[i].name)))
      then Some(ArchiveName(NameText(ms[i].name))) else None)
  }

  /** The `rom_files` of one subsystem, in catalog order: an archive is selected
      exactly when a primary record of the subsystem renders to it (a null name
      as `None.zip`) and it exists. */
  function RomArchives(ms: seq<Machine>, sourcefile: string, archiveExists: string -> bool): (fs: seq<string>)
    ensures |fs| <= |ms|
    ensures forall f :: f in fs <==>
              archiveExists(f) && exists i :: 0 <= i < |ms| && IsPrimary(ms[i], sourcefile) && f == ArchiveName(NameText(ms[i].name))
  {
    var flags := ArchiveFlags(ms, sourcefile, archiveExists);
    var r := Somes(flags);
    assert forall f :: f in r <==>
              archiveExists(f) && exists i :: 0 <= i < |ms| && IsPrimary(ms[i], sourcefile) && f == ArchiveName(NameText(ms[i].name)) by {
      forall f
        ensures f in r <==>
                  archiveExists(f) && exists i :: 0 <= i < |ms| && IsPrimary(ms[i], sourcefile) && f == ArchiveName(NameText(ms[i].name))
      {
        SomesMembers(flags, f);
        if exists i :: 0 <= i < |ms| && IsPrimary(ms[i], sourcefile) && f == ArchiveName(NameText(ms[i].name)) {
          var i :| 0 <= i < |ms| && IsPrimary(ms[i], sourcefile) && f == ArchiveName(NameText(ms[i].name));
          if archiveExists(f) {
            assert flags[i] == Some(f);
          }
        }
      }
    }
    r
  }

  /** Some primary record has a null name: joining it onto the CHD folder raises
      a TypeError, and nothing of the subsystem is copied. */
  predicate NullPrimaryName(ms: seq<Machine>, sourcefile: string) {
    exists i :: 0 <= i < |ms| && IsPrimary(ms[i], sourcefile) && ms[i].name.None?
  }

  /** Per record, its CHD folder when it is primary and the folder exists. */
  function FolderFlags(ms: seq<Machine>, sourcefile: string, dirExists: string -> bool): (fs: seq<Option<string>>)
    ensures |fs| == |ms|
    ensures forall i :: 0 <= i < |ms| ==>
              fs[i] == if IsPrimary(ms[i], sourcefile) && ms[i].name.Some? && dirExists(ms[i].name.value)
                       then ms[i].name else None
  {
    seq(|ms|, i requires 0 <= i < |ms| =>
      if IsPrimary(ms[i], sourcefile) && ms[i].name.Some? && dirExists(ms[i].name.value)
      then ms[i].name else None)
  }

  /** The `chd_folders` of one subsystem, in catalog order, or `None` for the
      TypeError; a folder is selected exactly when it exists and names a
      primary record. */
  function ChdFolders(ms: seq<Machine>, sourcefile: string, dirExists: string -> bool): (r: Option<seq<string>>)
    ensures r.None? <==> NullPrimaryName(ms, sourcefile)
    ensures r.Some? ==> |r.value| <= |ms|
    ensures r.Some? ==> forall d :: d in r.value <==>
              dirExists(d) && exists i :: 0 <= i < |ms| && IsPrimary(ms[i], sourcefile) && ms[i].name == Some(d)
  {
    if NullPrimaryName(ms, sourcefile) then None
    else
      var flags := FolderFlags(ms, sourcefile, dirExists);
      var r := Somes(flags);
      assert forall d :: d in r <==>
                dirExists(d) && exists i :: 0 <= i < |ms| && IsPrimary(ms[i], sourcefile) && ms[i].name == Some(d) by {
        forall d
          ensures d in r <==>
                    dirExists(d) && exists i :: 0 <= i < |ms| && IsPrimary(ms[i], sourcefile) && ms[i].name == Some(d)
        {
          SomesMembers(flags, d);
          if Some(d) in flags {
            var i :| 0 <= i < |flags| && flags[i] == Some(d);
            assert IsPrimary(ms[i], sourcefile) && ms[i].name == Some(d);
          }
          if dirExists(d) && exists i :: 0 <= i < |ms| && IsPrimary(ms[i], sourcefile) && ms[i].name == Some(d) {
            var i :| 0 <= i < |ms| && IsPrimary(ms[i], sourcefile) && ms[i].name == Some(d);
            assert flags[i] == Some(d);
          }
        }
      }
      Some(r)
  }

  /** What one subsystem's copy receives. */
  datatype Selection = Selection(romFiles: seq<string>, chdFolders: seq<string>)

  /** `copy_roms_and_chds` up to its copy: both lists, or the TypeError. */
  function SubsystemSelection(ms: seq<Machine>, sourcefile: string, archiveExists: string -> bool,
                              dirExists: string -> bool): (r: Option<Selection>)
    ensures r.None? <==> NullPrimaryName(ms, sourcefile)
    ensures r.Some? ==> r.value.romFiles == RomArchives(ms, sourcefile, archiveExists)
    ensures r.Some? ==> Some(r.value.chdFolders) == ChdFolders(ms, sourcefile, dirExists)
    ensures r.Some? ==> forall d :: d in r.value.chdFolders <==>
              dirExists(d) && exists i :: 0 <= i < |ms| && IsPrimary(ms[i], sourcefile) && ms[i].name == Some(d)
  {
    match ChdFolders(ms, sourcefile, dirExists)
    case None => None
    case Some(folders) => Some(Selection(RomArchives(ms, sourcefile, archiveExists), folders))
  }

  /** `copy_aknf_roms_and_chds`: every key of the section, whatever its flag,
      whose archive, respectively folder, exists, in section order. */
  function AknfSelection(s: Section, archiveExists: string -> bool, dirExists: string -> bool): (r: Selection)
    ensures forall f :: f in r.romFiles <==> archiveExists(f) && exists i :: 0 <= i < |s| && f == ArchiveName(s[i].0)
    ensures forall d :: d in r.chdFolders <==> dirExists(d) && exists i :: 0 <= i < |s| && d == s[i].0
    ensures Subsequence(r.romFiles, seq(|s|, i requires 0 <= i < |s| => ArchiveName(s[i].0)))
    ensures Subsequence(r.chdFolders, Keys(s))
  {
    var ks := Keys(s);
    var archives := seq(|ks|, i requires 0 <= i < |ks| =>
      if archiveExists(ArchiveName(ks[i])) then Some(ArchiveName(ks[i])) else None);
    var folders := seq(|ks|, i requires 0 <= i < |ks| => if dirExists(ks[i]) then Some(ks[i]) else None);
    AknfArchives(s, archiveExists, archives);
    AknfFolders(s, dirExists, folders);
    Selection(Somes(archives), Somes(folders))
  }

  // Properties

  /** Selection runs in catalog order: the selection of two consecutive blocks of
      records is that of the first followed by that of the second. */
  lemma RomArchivesAppend(a: seq<Machine>, b: seq<Machine>, sourcefile: string, archiveExists: string -> bool)
    ensures RomArchives(a + b, sourcefile, archiveExists) ==
            RomArchives(a, sourcefile, archiveExists) + RomArchives(b, sourcefile, archiveExists)
  {
    var fa, fb := ArchiveFlags(a, sourcefile, archiveExists), ArchiveFlags(b, sourcefile, archiveExists);
    forall i | 0 <= i < |a + b|
      ensures ArchiveFlags(a + b, sourcefile, archiveExists)[i] == (fa + fb)[i]
    {
      if i < |a| {
        assert (a + b)[i] == a[i];
      } else {
        assert (a + b)[i] == b[i - |a|];
      }
    }
    assert ArchiveFlags(a + b, sourcefile, archiveExists) == fa + fb;
    SomesAppend(fa, fb);
  }

  /** Folder selection runs in catalog order too: two blocks of records select
      the first's folders then the second's, and the whole fails exactly when
      either block holds a null primary name. */
  lemma ChdFoldersAppend(a: seq<Machine>, b: seq<Machine>, sourcefile: string, dirExists: string -> bool)
    ensures ChdFolders(a + b, sourcefile, dirExists).None? <==>
            ChdFolders(a, sourcefile, dirExists).None? || ChdFolders(b, sourcefile, dirExists).None?
    ensures ChdFolders(a, sourcefile, dirExists).Some? && ChdFolders(b, sourcefile, dirExists).Some? ==>
            ChdFolders(a + b, sourcefile, dirExists) ==
            Some(ChdFolders(a, sourcefile, dirExists).value + ChdFolders(b, sourcefile, dirExists).value)
  {
    NullPrimaryNameAppend(a, b, sourcefile);
    var fa, fb := FolderFlags(a, sourcefile, dirExists), FolderFlags(b, sourcefile, dirExists);
    forall i | 0 <= i < |a + b|
      ensures FolderFlags(a + b, sourcefile, dirExists)[i] == (fa + fb)[i]
    {
      if i < |a| {
        assert (a + b)[i] == a[i];
      } else {
        assert (a + b)[i] == b[i - |a|];
      }
    }
    assert FolderFlags(a + b, sourcefile, dirExists) == fa + fb;
    SomesAppend(fa, fb);
  }

  /** Folders are not deduplicated: two primary records of one name select its
      folder twice. */
  lemma ChdFoldersKeepRepeats(m: Machine, sourcefile: string, dirExists: string -> bool)
    requires IsPrimary(m, sourcefile) && m.name.Some? && dirExists(m.name.value)
    ensures ChdFolders([m, m], sourcefile, dirExists) == Some([m.name.value, m.name.value])
  {
    var ms := [m, m];
    assert forall i :: 0 <= i < |ms| ==> ms[i] == m;
    assert !NullPrimaryName(ms, sourcefile);
    var flags := FolderFlags(ms, sourcefile, dirExists);
    assert flags == [m.name, m.name];
    assert flags[..1] == [m.name];
    assert Somes(flags[..1]) == [m.name.value];
    assert Somes(flags) == [m.name.value] + [m.name.value] == [m.name.value, m.name.value];
  }

  /** A null primary name in two blocks is one in either block. */
  lemma NullPrimaryNameAppend(a: seq<Machine>, b: seq<Machine>, sourcefile: string)
    ensures NullPrimaryName(a + b, sourcefile) <==> NullPrimaryName(a, sourcefile) || NullPrimaryName(b, sourcefile)
  {
    if NullPrimaryName(a + b, sourcefile) {
      var i :| 0 <= i < |a + b| && IsPrimary((a + b)[i], sourcefile) && (a + b)[i].name.None?;
      if i < |a| {
        assert (a + b)[i] == a[i];
      } else {
        assert (a + b)[i] == b[i - |a|];
      }
    }
    if NullPrimaryName(a, sourcefile) {
      var i :| 0 <= i < |a| && IsPrimary(a[i], sourcefile) && a[i].name.None?;
      assert (a + b)[i] == a[i];
    }
    if NullPrimaryName(b, sourcefile) {
      var i :| 0 <= i < |b| && IsPrimary(b[i], sourcefile) && b[i].name.None?;
      assert (a + b)[|a| + i] == b[i];
    }
  }

  /** No device closure: every selected archive belongs to a primary name of the
      subsystem, never to a device those machines reference. */
  lemma ArchivesOfPrimaryNames(ms: seq<Machine>, sourcefile: string, archiveExists: string -> bool, f: string)
    requires f in RomArchives(ms, sourcefile, archiveExists)
    ensures exists n :: n in PrimaryNames(ms, sourcefile) && f == ArchiveName(NameText(n))
  {
    var i :| 0 <= i < |ms| && IsPrimary(ms[i], sourcefile) && f == ArchiveName(NameText(ms[i].name));
    PrimaryNamesMembers(ms, sourcefile, ms[i].name);
  }

  /** Parent `A` of source `k`, referencing device `dev` of another source, which has ROMs. */
  function DeviceExample(rom: Rom): seq<Machine> {
    [Sketch("A", Some("k"), NoneText, [Some("dev")], []), Sketch("dev", Some("other"), NoneText, [], [rom])]
  }

  /** A file system on which every archive exists. */
  function AllPresent(f: string): bool {
    true
  }

  /** No device closure: the classifier adds `dev` to subsystem `k`, but the
      copy selection of `k` holds `A.zip` alone, although every archive exists. */
  lemma NoDeviceClosureExample(rom: Rom)
    ensures Some("dev") in Classification(DeviceExample(rom), "k")
    ensures RomArchives(DeviceExample(rom), "k", AllPresent) == ["A.zip"]
  {
    DeviceExampleClassified(rom);
    DeviceExampleSelected(rom);
  }

  lemma DeviceExampleClassified(rom: Rom)
    ensures Some("dev") in Classification(DeviceExample(rom), "k")
  {
    var c := DeviceExample(rom);
    var x := Some("dev");
    assert !NamedPrimary(c, "k", x) by {
      forall i | 0 <= i < |c| ensures !(IsPrimary(c[i], "k") && c[i].name == x) {
      }
    }
    assert LastPrimaryOfName(c, "k", 0) && x in c[0].deviceRefs;
    assert c[1].name == x && c[1].roms != [];
    assert LastRecordHasRoms(c, x);
  }

  lemma DeviceExampleSelected(rom: Rom)
    ensures RomArchives(DeviceExample(rom), "k", AllPresent) == ["A.zip"]
  {
    var c := DeviceExample(rom);
    var fs := ArchiveFlags(c, "k", AllPresent);
    assert ArchiveName(NameText(c[0].name)) == "A.zip";
    assert IsPrimary(c[0], "k") && !IsPrimary(c[1], "k");
    assert fs[0] == Some("A.zip") && fs[1] == None;
    assert fs == [Some("A.zip"), None];
    assert fs[..1] == [Some("A.zip")];
    assert fs[..1][..0] == [];
    assert Somes(fs[..1]) == ["A.zip"];
    assert Somes(fs) == Somes(fs[..1]);
    assert RomArchives(c, "k", AllPresent) == Somes(fs);
  }

  /** The curated copy ignores the true/false flags: sections with the same keys
      select the same archives and folders. */
  lemma AknfIgnoresFlags(s: Section, t: Section, archiveExists: string -> bool, dirExists: string -> bool)
    requires Keys(s) == Keys(t)
    ensures AknfSelection(s, archiveExists, dirExists) == AknfSelection(t, archiveExists, dirExists)
  {
  }

  /** The archives picked from the keys' flags are those of keys whose archive
      exists, in section order. */
  lemma {:induction false} AknfArchives(s: Section, archiveExists: string -> bool, fs: seq<Option<string>>)
    requires |fs| == |s|
    requires forall i :: 0 <= i < |s| ==> fs[i] == if archiveExists(ArchiveName(s[i].0)) then Some(ArchiveName(s[i].0)) else None
    ensures forall f :: f in Somes(fs) <==> archiveExists(f) && exists i :: 0 <= i < |s| && f == ArchiveName(s[i].0)
    ensures Subsequence(Somes(fs), seq(|s|, i requires 0 <= i < |s| => ArchiveName(s[i].0)))
  {
    forall f
      ensures f in Somes(fs) <==> archiveExists(f) && exists i :: 0 <= i < |s| && f == ArchiveName(s[i].0)
    {
      SomesMembers(fs, f);
      if archiveExists(f) && exists i :: 0 <= i < |s| && f == ArchiveName(s[i].0) {
        var i :| 0 <= i < |s| && f == ArchiveName(s[i].0);
        assert fs[i] == Some(f);
      }
    }
    SomesSubsequence(fs, seq(|s|, i requires 0 <= i < |s| => ArchiveName(s[i].0)));
  }

  /** The folders picked from the keys' flags are the keys whose folder exists,
      in section order. */
  lemma {:induction false} AknfFolders(s: Section, dirExists: string -> bool, fs: seq<Option<string>>)
    requires |fs| == |s|
    requires forall i :: 0 <= i < |s| ==> fs[i] == if dirExists(s[i].0) then Some(s[i].0) else None
    ensures forall d :: d in Somes(fs) <==> dirExists(d) && exists i :: 0 <= i < |s| && d == s[i].0
    ensures Subsequence(Somes(fs), Keys(s))
  {
    forall d
      ensures d in Somes(fs) <==> dirExists(d) && exists i :: 0 <= i < |s| && d == s[i].0
    {
      SomesMembers(fs, d);
      if Some(d) in fs {
        var i :| 0 <= i < |fs| && fs[i] == Some(d);
        assert d == s[i].0;
      }
      if dirExists(d) && exists i :: 0 <= i < |s| && d == s[i].0 {
        var i :| 0 <= i < |s| && d == s[i].0;
        assert fs[i] == Some(d);
      }
    }
    SomesSubsequence(fs, Keys(s));
  }
}
