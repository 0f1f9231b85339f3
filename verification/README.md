# MAME arcade subsystem organiser — a Dafny model of its core

The organiser sorts MAME arcade ROM sets into per-subsystem folders. Around its
file, process and prompt handling sit the pure pieces modelled here:

- **The machine-record normaliser.** It turns the `mame -listxml` document into the JSON catalog: one flat record per
  `machine` element, with fixed defaults (`"none"`, `"no"`) where an attribute or child is missing, and `None`
  where there is no default. It is written three times: `main.py` 47–122, `sorter.py` 47–122 (line for line the same as
  `main.py`) and `scripts/python/convert_mame_xml_to_json.py` 5–79. Both converters are modelled, including the
  "JSON already exists" short-circuit of the organiser and the failure outcomes (modules `Xml`, `Catalog`, `Normaliser`,
  `Conversion`).
- **The subsystem classifier** `filter_mame_json_by_criteria` (`scripts/python/filter_subsystems.py`). It takes the parent
  machines of one driver source file and adds, one hop deep, the ROM-bearing devices they reference. Its output is names
  only: primaries first, then added devices (module `Subsystems`).
- **The curated-list validator** `check_aknf_ini_file` (`main.py` 213–265). It reports enabled entries that name no
  catalog machine. It also reports ROM-bearing device references of enabled machines that the list does not name
  (module `AknfCheck`).
- **The curated-list extractor** (`scripts/python/get_aknf_roms.py`). It prints every key of the `AllKillerNoFillerRoms`
  section whose value reads as a true boolean, and stops at the first value that is no boolean (modules `Ini`,
  `AknfRoms`).
- **The subsystem list reader** (`scripts/python/parse_ArcadeSystems.py`). It reads one `name=driver` entry per usable
  line (modules `Text`, `ArcadeSystems`).
- **The copy selections** that feed `rsync`. One selects the archives and CHD folders of a subsystem (`main.py` 167–182,
  the same as `sorter.py` 167–182). The other selects those of the curated list (`main.py` 290–300) (module
  `CopySelection`).

Files, processes and the file system become data or parameters:
- the XML input is an already parsed element tree, or `Missing` or `Malformed`;
- the JSON catalog is a `seq<Machine>`;
- an INI section is its ordered `(key, value)` entries;
- whether an output file can be opened, and whether an archive or folder exists, are parameters;
- a run's warnings and printed lines are returned values.

Absent values are `Option` (`None` is Python's `None`, a JSON `null`). Names of machines and device references are
`Option<string>`, because neither has a default.

Where the code departs from what its names suggest, the model follows the code:
- duplicate machine names are kept by the normaliser, not rejected (`Normaliser.DocumentRoundTrip`);
- added devices come out in discovery order, not catalog order (`Subsystems.AddedOrder`);
- the extractor accepts every literal of Python's `ConfigParser.getboolean`, not only `true`/`false` (`Ini.ParseBool`);
- the validator resolves an entry to the FIRST record with its name. It collects a reference when ANY record of that
  name has ROMs, where the classifier looks at the LAST record only (`AknfCheck.ResolvingIsStricter`);
- the subsystem copy selection applies no device closure (`CopySelection.NoDeviceClosureExample`);
- a conversion also fails when the JSON output cannot be opened.

In `sorter.py`, lines 47–122 and 167–182 are the same code as in `main.py`. Rows below that cite one of the two files
hold for the other at the same lines.

## Model

| member | source | states |
|---|---|---|
| `Xml.FindText` | main.py:65-67 | `findtext` finds nothing exactly when no child carries the tag; otherwise it gives the text of the FIRST child with the tag, "" when that child has no text |
| `Xml.FindPathText` | main.py:100-102 | the path `driver/x` finds nothing exactly when no `driver` child has an `x` child; otherwise it gives the text of the first `x` child of the first `driver` child that has one |
| `Catalog.Lookup` | scripts/python/filter_subsystems.py:13 | the name-keyed dict of all machines holds, for a name, the LAST record with that name, and nothing when no record has it |
| `Catalog.LookupSnoc` | scripts/python/filter_subsystems.py:13 | a later record with the same name overwrites the entry of an earlier one |
| `Normaliser.Normalise` | main.py:56-57 | the catalog has one record per `machine` child of the root, in document order, each the normalisation of its element |
| `Normaliser.ToMachine` | main.py:58-64 | `romof`, `cloneof`, `sampleof` default to "none" and `ismechanical` to "no"; `name` and `sourcefile` are `None` exactly when absent, otherwise the attribute's value |
| `Normaliser.TextDefaults` | sorter.py:65-67 | a machine with no `description`, `year` or `manufacturer` child gets "none" for that field |
| `Normaliser.ListCounts` | scripts/python/convert_mame_xml_to_json.py:24-66 | each repeated list has exactly as many entries as there are children of that tag |
| `Normaliser.RefsAndClocks` | main.py:86-98 | the device references are the `name` attributes of the `device_ref` children in document order; a chip's `clock` defaults to "none" |
| `Normaliser.DisplayTextRoundTrip` | scripts/python/convert_mame_xml_to_json.py:21-23 | description, year and manufacturer read back from a rendered machine |
| `Normaliser.AttrsRoundTrip` | scripts/python/convert_mame_xml_to_json.py:15-20 | the six machine attributes read back from a rendered machine, defaults included |
| `Normaliser.DriverFields` | scripts/python/convert_mame_xml_to_json.py:55-59 | status, emulation and savestate read back from a rendered driver, `None` included |
| `Normaliser.DriverField` | main.py:99-103 | one driver sub-field reads back as itself |
| `Normaliser.PathThroughSingleParent` | sorter.py:100-102 | with one `driver` element, `driver/x` is that element's first `x` child |
| `Normaliser.BiosSetRoundTrip` | scripts/python/convert_mame_xml_to_json.py:24-30 | a BIOS set entry loses nothing through rendering and normalising |
| `Normaliser.RomRoundTrip` | scripts/python/convert_mame_xml_to_json.py:31-41 | a ROM entry loses none of its six attributes, absent ones included |
| `Normaliser.ChipRoundTrip` | scripts/python/convert_mame_xml_to_json.py:46-54 | a chip entry, including a clock that equals its default, reads back as itself |
| `Normaliser.FeatureRoundTrip` | scripts/python/convert_mame_xml_to_json.py:60-66 | a feature entry reads back as itself |
| `Normaliser.ListsRoundTrip` | sorter.py:68-110 | all five repeated lists read back with the same entries in the same order |
| `Normaliser.MachineRoundTrip` | sorter.py:57-111 | normalising a rendered machine gives the machine back: no field is lost |
| `Normaliser.DocumentRoundTrip` | scripts/python/convert_mame_xml_to_json.py:13-68 | normalising a document of rendered machines gives every record back, in order, duplicates kept: nothing is dropped, added, merged or reordered |
| `Conversion.ConvertMameXmlToJson` | scripts/python/convert_mame_xml_to_json.py:9-79 | success exactly when the input parses and the output opens; then the written list is the normalised `machine` children, one per element, in order; on failure nothing is written |
| `Conversion.ConvertXmlToJson` | main.py:47-122 | an existing output short-circuits to success with nothing parsed or written; otherwise success exactly when the input parses and the output opens, and what is written is the normalised catalog |
| `Conversion.MaterialiseIdempotent` | sorter.py:47-51 | after a successful run, a second run succeeds and leaves the output as the first parse wrote it |
| `Conversion.ExistingOutputKept` | main.py:47-51 | an existing output is kept whatever the input, even a missing or malformed one |
| `Conversion.FailureWritesNothing` | sorter.py:113-122 | a missing or malformed input, or an output that cannot be opened, returns failure and leaves no output |
| `Subsystems.PrimaryRecords` | scripts/python/filter_subsystems.py:16-20 | the primary records are exactly the catalog records whose source file is the key and that are not clones, in catalog order |
| `Subsystems.PrimaryRecordAbsent` | scripts/python/filter_subsystems.py:16-20 | the dict of primaries holds no record for a name exactly when no primary record has that name |
| `Subsystems.PrimaryRecordIsLast` | scripts/python/filter_subsystems.py:16-20 | the dict of primaries holds for a name the last primary record with that name, and holds the name exactly when some primary record has it |
| `Subsystems.PrimaryNamesMembers` | scripts/python/filter_subsystems.py:16-17 | the primary names are exactly the names of primary records |
| `Subsystems.Discovery` | scripts/python/filter_subsystems.py:24-26 | a reference is walked exactly when it is in the references of some primary's record |
| `Subsystems.DiscoveryMembers` | scripts/python/filter_subsystems.py:25-26 | the walked references are those of the last primary record of each primary name |
| `Subsystems.KeepQualifyingMembers` | scripts/python/filter_subsystems.py:27-30 | a walked reference is kept exactly when it resolves to a record with ROMs and is not a primary |
| `Subsystems.ResolvesMeansLastHasRoms` | scripts/python/filter_subsystems.py:28-29 | the ROM test reads the last catalog record with the reference's name |
| `Subsystems.IndexByName` | scripts/python/filter_subsystems.py:13 | the loop building the dict of all machines maps each name to its last record |
| `Subsystems.IndexPrimary` | scripts/python/filter_subsystems.py:16-20 | one step of the comprehension extends the primary names and the dict of primaries from a catalog prefix to the prefix one record longer |
| `Subsystems.IndexPrimaries` | scripts/python/filter_subsystems.py:16-20 | the loop building the dict of primaries yields the primary names in first-occurrence order, each mapped to its last primary record |
| `Subsystems.AddDevices` | scripts/python/filter_subsystems.py:26-30 | walking one primary's references appends each qualifying reference that was not already added |
| `Subsystems.AddDevice` | scripts/python/filter_subsystems.py:26-30 | one step of the inner loop turns the added devices of the walk so far into those of the walk extended by the next reference |
| `Subsystems.AddDeviceStep` | scripts/python/filter_subsystems.py:27-30 | the condition checked on the two dicts and the list of added devices is the qualification of the reference, and a repeat is not appended |
| `Subsystems.QualifiesByIndex` | scripts/python/filter_subsystems.py:27-29 | the dict tests `device in all_machines`, `not in filtered_machines` and non-empty `roms` are the qualification |
| `Subsystems.FilterByCriteria` | scripts/python/filter_subsystems.py:13-36 | the function as written, with its dicts and nested loops, outputs the classification: names only, primaries then added devices |
| `Subsystems.Classification` | scripts/python/filter_subsystems.py:13-36 | no name is output twice, and a name is output exactly when it names a primary record, or it names no primary record, is referenced by the walked record of a primary name and the last record with that name has ROMs |
| `Subsystems.PrimariesThenAdded` | scripts/python/filter_subsystems.py:16-33 | the primary names followed by the added devices hold no name twice and are exactly the names the classification characterises |
| `Subsystems.PrimariesFirst` | scripts/python/filter_subsystems.py:33 | the output is the primaries followed by the added devices, and no added device names a primary record |
| `Subsystems.PrimaryOrder` | scripts/python/filter_subsystems.py:16-20 | primaries come out in the order of their first primary record in the catalog |
| `Subsystems.AddedOrder` | scripts/python/filter_subsystems.py:24-30 | added devices come out in the order of their first occurrence in the walk, primary by primary and reference by reference |
| `Subsystems.KeepPrecedes` | scripts/python/filter_subsystems.py:26-30 | order among kept references is order in the walk |
| `Subsystems.OneHop` | scripts/python/filter_subsystems.py:24-30 | changing the device references of records that are not primary does not change the output: devices' own references are never followed |
| `Subsystems.FramePrimaryRecords` | scripts/python/filter_subsystems.py:16-20 | changing only the references of non-primary records changes neither the primary records nor the record the dict of primaries holds for any name |
| `Subsystems.FrameResolves` | scripts/python/filter_subsystems.py:27-29 | changing only the references of non-primary records does not change whether a name resolves to a record with ROMs |
| `Subsystems.DanglingRefSkipped` | scripts/python/filter_subsystems.py:27 | a reference that names no catalog machine never reaches the output |
| `AknfCheck.FirstNamed` | main.py:232-234 | the scan over the catalog stops at a record with the entry's name, and finds none exactly when no record has it |
| `AknfCheck.FirstNamedAt` | main.py:233-248 | the scan stops at the first record with the name |
| `AknfCheck.Required` | main.py:218-247 | a reference is collected exactly when some entry collects it: the entry is enabled, resolves to a machine referencing it, and some record with that name has ROMs; being a set, it is kept once |
| `AknfCheck.NotFound` | main.py:229-253 | a key is reported not found exactly when it has an entry whose value lower-cases to "true" and no catalog record has its name; reports follow section order |
| `AknfCheck.NotFoundOnce` | main.py:250-253 | with distinct keys, no key is reported not found twice |
| `AknfCheck.MissingRefs` | main.py:256-265 | a reference is reported exactly when some entry collects it and no key of the section names it; a disabled key is enough to silence it |
| `AknfCheck.ValidatorStricterThanExtractor` | main.py:230 | every value the validator treats as enabled the extractor reads as true, but "yes" is read as true and not treated as enabled |
| `AknfCheck.ResolvingIsStricter` | main.py:241-247 | the classifier's ROM test implies the validator's, and a name whose only ROM-bearing record is not the last satisfies the validator's alone |
| `AknfCheck.GhostRomExample` | main.py:250-253 | an enabled `ghost_rom` absent from the catalog gives exactly one not-found report and no missing reference |
| `AknfCheck.SharedDeviceExample` | main.py:256-265 | `A` referencing the ROM-bearing `shared_dev` gives one missing-reference report, which a disabled `shared_dev` entry silences |
| `AknfCheck.FindFirst` | main.py:232-248 | the scan loop with its `break` finds the first record with the name |
| `AknfCheck.HasRomBearer` | main.py:241-247 | the inner scan finds some record of the reference's name with ROMs exactly when there is one |
| `AknfCheck.CollectRefs` | main.py:238-247 | the loop over a machine's references adds exactly those with a ROM-bearing record of their name |
| `AknfCheck.ScanEntry` | main.py:229-253 | one pass of the outer loop extends the not-found keys and the collected references of a section prefix to the prefix one entry longer |
| `AknfCheck.ScanEntries` | main.py:229-253 | the first pass yields the not-found keys in section order and the collected references |
| `AknfCheck.IsKey` | main.py:259-263 | the scan of the section finds a reference exactly when some key names it |
| `AknfCheck.ReportMissing` | main.py:256-265 | the second pass reports exactly the collected references that no key names |
| `AknfCheck.ReportOne` | main.py:258-265 | visiting one collected reference reports it exactly when no key names it, and leaves fewer references to visit |
| `AknfCheck.CheckAknfIniFile` | main.py:213-265 | a missing section is an error; otherwise the two kinds of findings are exactly the ones characterised above |
| `Ini.ParseBool` | scripts/python/get_aknf_roms.py:10 | a value reads true exactly when it lower-cases to 1, yes, true or on; false exactly for 0, no, false or off; anything else is an error |
| `Ini.ParseBoolIgnoresCase` | scripts/python/get_aknf_roms.py:10 | the boolean reading of a value is that of its lower-cased form |
| `Ini.ParseBoolLiterals` | scripts/python/get_aknf_roms.py:10 | every accepted literal, in any case, reads as the boolean it spells |
| `AknfRoms.PrintEnabled` | scripts/python/get_aknf_roms.py:9-11 | every run prints the keys reading true among the entries before the first value that is no boolean, and ends in error, naming that entry, exactly when there is one |
| `AknfRoms.ParseIniFile` | scripts/python/get_aknf_roms.py:9-11 | the run ends with the missing-section error exactly when the section is absent, and then nothing is printed; otherwise it is the run over that section |
| `AknfRoms.TrueKeysMembers` | scripts/python/get_aknf_roms.py:10-11 | a key is printed exactly when one of its entries reads as a true boolean |
| `AknfRoms.PrintsTrueKeys` | scripts/python/get_aknf_roms.py:9-11 | a section of booleans prints exactly the keys whose values read true, in section order, with no error |
| `AknfRoms.StopsAtFirstInvalid` | scripts/python/get_aknf_roms.py:10 | the first value that is no boolean ends the run with an error naming that entry, after the true keys before it were printed; it is not read as false |
| `AknfRoms.ValidPrefixAt` | scripts/python/get_aknf_roms.py:9-10 | the loop reads booleans up to the first value that is no boolean and stops exactly there |
| `AknfRoms.AbortsIffInvalid` | scripts/python/get_aknf_roms.py:10 | a run ends in error exactly when some value is no boolean literal |
| `AknfRoms.PrintedInOrder` | scripts/python/get_aknf_roms.py:9-11 | the printed keys are a subsequence of the section's keys, in declaration order |
| `AknfRoms.ExampleRun` | scripts/python/get_aknf_roms.py:9-11 | `c = true`, `a = false`, `b = true` prints `c` then `b` |
| `Text.Strip` | scripts/python/parse_ArcadeSystems.py:9 | the result is a slice of the line with only whitespace cut from both ends, and it neither starts nor ends with whitespace |
| `Text.StripEmptyIffBlank` | scripts/python/parse_ArcadeSystems.py:9 | stripping leaves nothing exactly when the line is all whitespace |
| `Text.Split` | scripts/python/parse_ArcadeSystems.py:10 | a split has one part more than the line has separators, and no part holds the separator |
| `Text.JoinSplit` | scripts/python/parse_ArcadeSystems.py:10-11 | joining the parts of a split with the separator gives the line back |
| `Text.SplitJoin` | scripts/python/parse_ArcadeSystems.py:10 | splitting a join of separator-free parts gives the parts back |
| `ArcadeSystems.ParseIniFile` | scripts/python/parse_ArcadeSystems.py:8-12 | the file yields at most one entry per line |
| `ArcadeSystems.ParseLine` | scripts/python/parse_ArcadeSystems.py:9-12 | a line yields an entry exactly when, stripped, it is not empty and does not start with `#`, and it holds exactly one `=` |
| `ArcadeSystems.BlankLineSkipped` | scripts/python/parse_ArcadeSystems.py:9 | a whitespace-only line yields nothing |
| `ArcadeSystems.ParseLineFields` | scripts/python/parse_ArcadeSystems.py:10-12 | an entry's name and driver are the stripped text left and right of the line's single `=` |
| `ArcadeSystems.FormatParse` | scripts/python/parse_ArcadeSystems.py:9-12 | an entry written as `name=driver` reads back as itself when neither field has surrounding whitespace or `=` and the name is not a comment |
| `ArcadeSystems.ParseIniFileAppend` | scripts/python/parse_ArcadeSystems.py:8 | the entries of two consecutive blocks of lines are those of the first followed by those of the second, so line order is kept |
| `ArcadeSystems.ParseIniFileMembers` | scripts/python/parse_ArcadeSystems.py:8-12 | an entry is in the result exactly when some line yields it |
| `CopySelection.RomArchives` | main.py:167-175 | an archive is selected exactly when it exists and a primary record of the source file renders to it, a null name rendering as `None.zip`; no more archives than records |
| `CopySelection.RomArchivesAppend` | sorter.py:168-169 | selection runs in catalog order: two blocks of records select the first's archives then the second's |
| `CopySelection.ArchivesOfPrimaryNames` | main.py:170-171 | every selected archive belongs to a primary name of the subsystem |
| `CopySelection.NoDeviceClosureExample` | main.py:167-182 | a ROM-bearing device the classifier adds to a subsystem is not selected for copying, although its archive exists |
| `CopySelection.ChdFolders` | sorter.py:176-182 | the folder selection fails, with the TypeError of joining a null name, exactly when some primary record has a null name; otherwise a folder is selected exactly when it exists and names a primary record, with at most one folder per record |
| `CopySelection.ChdFoldersAppend` | sorter.py:176-182 | folder selection runs in catalog order: two blocks of records select the first's folders then the second's, and fail exactly when either block fails |
| `CopySelection.ChdFoldersKeepRepeats` | main.py:176-182 | folders are not deduplicated: two primary records with one name select its folder twice |
| `CopySelection.SubsystemSelection` | main.py:167-182 | the copy of a subsystem fails exactly when the folder selection does; otherwise it copies the selected archives and the selected folders, each list in catalog order, and exactly the existing folders of primary names |
| `CopySelection.AknfSelection` | main.py:290-300 | a curated archive or folder is selected exactly when it exists and some key, enabled or not, names it; both keep section order |
| `CopySelection.AknfArchives` | main.py:290-294 | the archive comprehension over the keys selects exactly the existing archives of keys, in section order |
| `CopySelection.AknfFolders` | main.py:296-300 | the folder comprehension over the keys selects exactly the existing folders named by keys, in section order |
| `CopySelection.AknfIgnoresFlags` | main.py:290-300 | the curated copy depends on the keys only: sections with the same keys select the same |

## Left out

- Running `mame -listxml` (`generate_mame_xml`, `execute_command`): process I/O.
- The path prompt (`get_user_paths`): interactive input and directory checks.
- The `rsync` runs, `os.makedirs`, `os.path.dirname` and path joining in `sort_subsystem_roms`/`sort_roms`,
  `sort_aknf_roms` and the `copy_*` methods: file system and process I/O. The selections are modelled as names
  relative to the ROM and CHD folders, with existence as a parameter.
- ElementTree parsing and `json.dump`/`json.load`: library parsing and serialisation. The input is an abstract element
  tree (or `Missing`/`Malformed`), and the catalog is a `seq<Machine>`.
- Errors other than those modelled: a `PermissionError` or other OS error on reading or writing, and an I/O error
  half-way through writing the JSON file.
- Records without a key: the catalog is what the normaliser writes, so every key is present. The absent-key branches of
  `filter_subsystems.py` therefore cannot arise: `get('sourcefile', '')`, `get('cloneof', '')`, `get('device_refs', [])`
  and `get('roms', [])` at lines 19, 25 and 29. The same holds for the `"device_refs" in machine` test at `main.py`
  line 238.
- The error exits of `filter_subsystems.py` (lines 38–46, for a missing file or invalid JSON), and its JSON printing.
  The `{"name": ...}` wrapping at line 36 is modelled as the list of names itself.
- INI file reading (`config.read`): what configparser does on the way is not modelled. This covers key case folding in
  `get_aknf_roms.py` (it does not set `optionxform`), the `DEFAULT` section's keys (which iterating a section also
  yields), interpolation, and the rejection of repeated keys. A section is the ordered entries as the parser delivers
  them.
- `Text.LowerAscii`: lower-cases ASCII letters only. Every comparison of a lower-cased value is against an ASCII literal
  with neither `k` nor `i`, and the only non-ASCII characters that lower-case to ASCII letters give `k` and `i`, so
  every comparison agrees with Python's Unicode `str.lower()`.
- `AknfCheck.MissingRefs`: the order in which the second pass visits the set (Python set iteration order) is not
  modelled; the findings are a set.
- Reading the subsystem list file into lines (`for line in file`, with its newline translation): each line is given
  with its terminator, if any.
- Logging and printing, other than the printed keys of the extractor, and the `main()` orchestration.
- `scripts/python/get_chds_from_romset.py`: file system filtering with no other logic.
