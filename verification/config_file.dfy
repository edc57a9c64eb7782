/** parse_config_file: builds the configuration dictionary from an INI file
    (or from a data directory and image type alone), checks the required
    entries and fills in the default values. */
module ConfigFile {
  import opened Wrappers
  import opened Values
  import opened Strings

  type Section = map<string, Value>
  type Config = map<string, Section>

  /** What reading an existing path gave: the file was absent, the INI
      parser failed with IndexError, or it produced these sections. */
  datatype FileRead = Missing | Malformed | Sections(config: Config)

  datatype FileError =
    | NothingSpecified
    | FileMissing(path: string)
    | ReadFailed(path: string)
    | NoInputSection
    | MissingRequired(entry: string)

  /** Which value a present entry with a default is converted with: the
      default (what delta/config.py does) or the loaded value (what it
      evidently means to do). */
  datatype Conversion = ConvertDefault | ConvertLoaded

  /** One section of the defaults table, entries in the table's order. */
  datatype DefaultSection = DefaultSection(name: string, items: seq<Item>)

  const InputSection := "input_dataset"
  const DataDirectory := "data_directory"
  const ImageType := "image_type"

  /** The defaults table. The cache directory and cache size come from the
      image cache module and are parameters here. */
  function DefaultTable(cacheDir: Value, cacheLimit: Value): (table: seq<DefaultSection>)
    ensures DistinctSections(table)
    ensures forall i :: 0 <= i < |table| ==> DistinctKeys(table[i].items)
  {
    var table := [
      DefaultSection(InputSection, [Item("extension", NoneV)]),
      DefaultSection("cache", [Item("cache_dir", cacheDir), Item("cache_limit", cacheLimit)]),
      DefaultSection("ml", [Item("chunk_size", IntV(17)), Item("chunk_overlap", IntV(0)),
                            Item("num_epochs", IntV(5)), Item("batch_size", IntV(2))])
    ];
    assert SectionNames(table) == [InputSection, "cache", "ml"];
    table
  }

  function SectionNames(table: seq<DefaultSection>): (ns: seq<string>)
    ensures |ns| == |table|
    ensures forall i :: 0 <= i < |table| ==> ns[i] == table[i].name
  {
    if table == [] then [] else [table[0].name] + SectionNames(table[1..])
  }

  predicate DistinctSections(table: seq<DefaultSection>) {
    forall i, j :: 0 <= i < j < |table| ==> table[i].name != table[j].name
  }

  /** The value an entry with a default ends up with. An absent entry takes
      the default. A present entry becomes int() of the converted value
      when that succeeds and otherwise keeps what was loaded. */
  function Filled(sec: Section, name: string, default: Value, conv: Conversion): Value {
    if name in sec then
      match PyInt(if conv.ConvertDefault? then default else sec[name])
      case Some(n) => IntV(n)
      case None => sec[name]
    else default
  }

  /** One entry of the defaults table applied to a section. */
  function FillEntry(sec: Section, name: string, default: Value, conv: Conversion): (r: Section)
    ensures r.Keys == sec.Keys + {name}
    ensures forall k :: k in sec && k != name ==> r[k] == sec[k]
    ensures r[name] == Filled(sec, name, default, conv)
  {
    if name in sec then
      var converted := if conv.ConvertDefault? then default else sec[name];
      match PyInt(converted)
      case Some(n) => sec[name := IntV(n)]
      case None => sec
    else sec[name := default]
  }

  /** Fills one section from its entries of the defaults table, in order. */
  function FillSection(sec: Section, items: seq<Item>, conv: Conversion): (r: Section)
    ensures sec.Keys <= r.Keys
    ensures forall j :: 0 <= j < |items| ==> items[j].key in r
    decreases |items|
  {
    if items == [] then sec
    else FillSection(FillEntry(sec, items[0].key, items[0].val, conv), items[1..], conv)
  }

  /** With distinct keys, filling a section gains exactly the table's keys,
      leaves every other entry alone, and leaves each table entry as
      `Filled` from the section as loaded. */
  lemma {:induction false} FillSectionSpec(sec: Section, items: seq<Item>, conv: Conversion)
    requires DistinctKeys(items)
    ensures var r := FillSection(sec, items, conv);
      && (forall k :: k in r <==> k in sec || k in Keys(items))
      && (forall k :: k in sec && k !in Keys(items) ==> r[k] == sec[k])
      && (forall j :: 0 <= j < |items| ==>
            items[j].key in r && r[items[j].key] == Filled(sec, items[j].key, items[j].val, conv))
    decreases |items|
  {
    if items != [] {
      var next := FillEntry(sec, items[0].key, items[0].val, conv);
      assert Keys(items[1..]) == Keys(items)[1..];
      assert DistinctKeys(items[1..]) by {
        forall i, j | 0 <= i < j < |items| - 1 ensures items[1..][i].key != items[1..][j].key {
          assert items[i + 1].key != items[j + 1].key;
        }
      }
      assert items[0].key !in Keys(items[1..]);
      FillSectionSpec(next, items[1..], conv);
      var r := FillSection(next, items[1..], conv);
      assert FillSection(sec, items, conv) == r;
      forall j | 0 <= j < |items|
        ensures items[j].key in r && r[items[j].key] == Filled(sec, items[j].key, items[j].val, conv)
      {
        var k := items[j].key;
        if j == 0 {
          assert r[k] == next[k];
        } else {
          assert items[1..][j - 1] == items[j];
          assert k != items[0].key;
          assert k in next <==> k in sec;
          assert k in sec ==> next[k] == sec[k];
          assert Filled(next, k, items[j].val, conv) == Filled(sec, k, items[j].val, conv);
        }
      }
    }
  }

  /** Section `name` of `config` holds `value` under `key`. */
  predicate Holds(config: Config, name: string, key: string, value: Value) {
    name in config && key in config[name] && config[name][key] == value
  }

  /** The section as loaded, or an empty one when the file has none. */
  function SectionOf(config: Config, name: string): Section {
    if name in config then config[name] else map[]
  }

  /** Makes sure every section of the defaults table exists and fills each
      from its entries, in the table's order. */
  function FillDefaults(config: Config, table: seq<DefaultSection>, conv: Conversion): (r: Config)
    ensures config.Keys <= r.Keys
    ensures forall j :: 0 <= j < |table| ==> table[j].name in r
  {
    FillFrom(config, table, 0, conv)
  }

  /** The sections of the table from index `from` on, filled in order. */
  function FillFrom(config: Config, table: seq<DefaultSection>, from: nat, conv: Conversion): (r: Config)
    requires from <= |table|
    ensures config.Keys <= r.Keys
    ensures forall j :: from <= j < |table| ==> table[j].name in r
    decreases |table| - from
  {
    if from == |table| then config
    else
      var name := table[from].name;
      FillFrom(config[name := FillSection(SectionOf(config, name), table[from].items, conv)], table, from + 1, conv)
  }

  /** Filling adds exactly the sections the table names. */
  lemma FillDefaultsSections(config: Config, table: seq<DefaultSection>, conv: Conversion)
    ensures forall s :: s in FillDefaults(config, table, conv) <==> s in config || s in SectionNames(table)
  {
    FillFromSections(config, table, 0, conv);
    forall s | s in SectionNames(table)
      ensures exists j :: 0 <= j < |table| && table[j].name == s
    {
      var j :| 0 <= j < |table| && SectionNames(table)[j] == s;
    }
  }

  lemma {:induction false} FillFromSections(config: Config, table: seq<DefaultSection>, from: nat, conv: Conversion)
    requires from <= |table|
    ensures forall s :: s in FillFrom(config, table, from, conv) <==>
              s in config || exists j :: from <= j < |table| && table[j].name == s
    decreases |table| - from
  {
    if from < |table| {
      var name := table[from].name;
      var next := config[name := FillSection(SectionOf(config, name), table[from].items, conv)];
      FillFromSections(next, table, from + 1, conv);
      assert FillFrom(config, table, from, conv) == FillFrom(next, table, from + 1, conv);
      forall s | s in FillFrom(config, table, from, conv)
        ensures s in config || exists j :: from <= j < |table| && table[j].name == s
      {
        if s == name {
          assert table[from].name == s;
        } else if s !in next {
          var j :| from + 1 <= j < |table| && table[j].name == s;
        }
      }
      forall s | s in config || exists j :: from <= j < |table| && table[j].name == s
        ensures s in FillFrom(config, table, from, conv)
      {
        if s !in config {
          var j :| from <= j < |table| && table[j].name == s;
          if j == from {
            assert s in next;
          }
        }
      }
    }
  }

  /** Sections the defaults table does not name come back untouched. */
  lemma FillDefaultsKeepsOthers(config: Config, table: seq<DefaultSection>, conv: Conversion, s: string)
    requires s in config && s !in SectionNames(table)
    ensures s in FillDefaults(config, table, conv) && FillDefaults(config, table, conv)[s] == config[s]
  {
    forall j | 0 <= j < |table|
      ensures table[j].name != s
    {
      assert SectionNames(table)[j] == table[j].name;
    }
    FillFromKeepsOthers(config, table, 0, conv, s);
  }

  lemma {:induction false} FillFromKeepsOthers(config: Config, table: seq<DefaultSection>, from: nat, conv: Conversion,
                                               s: string)
    requires from <= |table|
    requires s in config && forall j :: from <= j < |table| ==> table[j].name != s
    ensures s in FillFrom(config, table, from, conv) && FillFrom(config, table, from, conv)[s] == config[s]
    decreases |table| - from
  {
    if from < |table| {
      var name := table[from].name;
      var next := config[name := FillSection(SectionOf(config, name), table[from].items, conv)];
      FillFromKeepsOthers(next, table, from + 1, conv, s);
    }
  }

  /** Each section the defaults table names ends up as the loaded section
      (or an empty one) filled from that section's entries. */
  lemma FillDefaultsFillsSection(config: Config, table: seq<DefaultSection>, conv: Conversion, i: nat)
    requires DistinctSections(table)
    requires i < |table|
    ensures table[i].name in FillDefaults(config, table, conv)
    ensures FillDefaults(config, table, conv)[table[i].name] ==
            FillSection(SectionOf(config, table[i].name), table[i].items, conv)
  {
    FillFromFillsSection(config, table, 0, conv, i);
  }

  lemma {:induction false} FillFromFillsSection(config: Config, table: seq<DefaultSection>, from: nat,
                                                conv: Conversion, i: nat)
    requires DistinctSections(table)
    requires from <= i < |table|
    ensures table[i].name in FillFrom(config, table, from, conv)
    ensures FillFrom(config, table, from, conv)[table[i].name] ==
            FillSection(SectionOf(config, table[i].name), table[i].items, conv)
    decreases |table| - from
  {
    var name := table[from].name;
    var next := config[name := FillSection(SectionOf(config, name), table[from].items, conv)];
    assert FillFrom(config, table, from, conv) == FillFrom(next, table, from + 1, conv);
    if i == from {
      FillFromKeepsOthers(next, table, from + 1, conv, name);
    } else {
      assert table[from].name != table[i].name;
      assert SectionOf(next, table[i].name) == SectionOf(config, table[i].name);
      FillFromFillsSection(next, table, from + 1, conv, i);
    }
  }

  /** The configuration before defaults: from the file's sections, or built
      from the data directory and image type when no path is given. */
  function InitialConfig(configPath: Option<string>, read: FileRead, dataDirectory: Value, imageType: Value)
    : (r: Result<Config, FileError>)
    ensures (configPath.None? || configPath.value == "") ==>
              (r.Err? <==> !Truthy(dataDirectory) && !Truthy(imageType))
    ensures (configPath.None? || configPath.value == "") && r.Ok? ==>
              r.value == map[InputSection := map[DataDirectory := dataDirectory, ImageType := imageType]]
    ensures configPath.Some? && configPath.value != "" ==>
              match read
              case Missing => r == Err(FileMissing(configPath.value))
              case Malformed => r == Err(ReadFailed(configPath.value))
              case Sections(config) => r == Ok(config)
  {
    if configPath.None? || configPath.value == "" then
      if !Truthy(dataDirectory) && !Truthy(imageType) then Err(NothingSpecified)
      else Ok(map[InputSection := map[DataDirectory := dataDirectory, ImageType := imageType]])
    else
      match read
      case Missing => Err(FileMissing(configPath.value))
      case Malformed => Err(ReadFailed(configPath.value))
      case Sections(config) => Ok(config)
  }

  /** The input section must exist (else KeyError) and hold both required
      entries, checked in order. */
  function CheckRequired(config: Config): (r: Option<FileError>)
    ensures r.None? <==> InputSection in config && DataDirectory in config[InputSection] &&
                         ImageType in config[InputSection]
  {
    if InputSection !in config then Some(NoInputSection)
    else if DataDirectory !in config[InputSection] then Some(MissingRequired(DataDirectory))
    else if ImageType !in config[InputSection] then Some(MissingRequired(ImageType))
    else None
  }

  /** parse_config_file with the given conversion of present entries. */
  function ParseWith(configPath: Option<string>, read: FileRead, dataDirectory: Value, imageType: Value,
                     cacheDir: Value, cacheLimit: Value, conv: Conversion): (r: Result<Config, FileError>)
    ensures r.Ok? <==> InitialConfig(configPath, read, dataDirectory, imageType).Ok? &&
                       CheckRequired(InitialConfig(configPath, read, dataDirectory, imageType).value).None?
    ensures InitialConfig(configPath, read, dataDirectory, imageType).Err? ==>
              r == InitialConfig(configPath, read, dataDirectory, imageType).PropagateFailure()
    ensures InitialConfig(configPath, read, dataDirectory, imageType).Ok? &&
            CheckRequired(InitialConfig(configPath, read, dataDirectory, imageType).value).Some? ==>
              r == Err(CheckRequired(InitialConfig(configPath, read, dataDirectory, imageType).value).value)
  {
    var config :- InitialConfig(configPath, read, dataDirectory, imageType);
    match CheckRequired(config)
    case Some(e) => Err(e)
    case None => Ok(FillDefaults(config, DefaultTable(cacheDir, cacheLimit), conv))
  }

  /** A successful parse holds every section of the defaults table. */
  lemma ParseWithSections(configPath: Option<string>, read: FileRead, dataDirectory: Value, imageType: Value,
                          cacheDir: Value, cacheLimit: Value, conv: Conversion)
    ensures var r := ParseWith(configPath, read, dataDirectory, imageType, cacheDir, cacheLimit, conv);
            r.Ok? ==> forall i :: 0 <= i < |DefaultTable(cacheDir, cacheLimit)| ==>
              DefaultTable(cacheDir, cacheLimit)[i].name in r.value
  {
    var r := ParseWith(configPath, read, dataDirectory, imageType, cacheDir, cacheLimit, conv);
    if r.Ok? {
      var table := DefaultTable(cacheDir, cacheLimit);
      var init := InitialConfig(configPath, read, dataDirectory, imageType).value;
      assert r.value == FillDefaults(init, table, conv);
      forall i | 0 <= i < |table|
        ensures table[i].name in r.value
      {
        FillDefaultsFillsSection(init, table, conv, i);
      }
    }
  }

  /** parse_config_file as written: a present entry is replaced by int() of
      its DEFAULT whenever the default converts. */
  function ParseConfigFile(configPath: Option<string>, read: FileRead, dataDirectory: Value, imageType: Value,
                           cacheDir: Value, cacheLimit: Value): (r: Result<Config, FileError>)
    ensures r.Ok? ==> forall i :: 0 <= i < |DefaultTable(cacheDir, cacheLimit)| ==>
              DefaultTable(cacheDir, cacheLimit)[i].name in r.value
  {
    ParseWithSections(configPath, read, dataDirectory, imageType, cacheDir, cacheLimit, ConvertDefault);
    ParseWith(configPath, read, dataDirectory, imageType, cacheDir, cacheLimit, ConvertDefault)
  }

  /** parse_config_file as intended: a present entry is converted to an
      integer when its loaded value is one, and otherwise kept. */
  function ParseConfigFileCorrected(configPath: Option<string>, read: FileRead, dataDirectory: Value, imageType: Value,
                                    cacheDir: Value, cacheLimit: Value): (r: Result<Config, FileError>)
    ensures r.Ok? ==> forall i :: 0 <= i < |DefaultTable(cacheDir, cacheLimit)| ==>
              DefaultTable(cacheDir, cacheLimit)[i].name in r.value
  {
    ParseWithSections(configPath, read, dataDirectory, imageType, cacheDir, cacheLimit, ConvertLoaded);
    ParseWith(configPath, read, dataDirectory, imageType, cacheDir, cacheLimit, ConvertLoaded)
  }

  /** Where a successful parse leaves one entry of the defaults table: it
      is present; an entry the input lacked holds the default; an entry it
      had holds int() of the converted value, or what was loaded when that
      conversion raises. */
  lemma ParseWithEntry(configPath: Option<string>, read: FileRead, dataDirectory: Value, imageType: Value,
                       cacheDir: Value, cacheLimit: Value, conv: Conversion, i: nat, j: nat)
    requires ParseWith(configPath, read, dataDirectory, imageType, cacheDir, cacheLimit, conv).Ok?
    requires i < |DefaultTable(cacheDir, cacheLimit)| && j < |DefaultTable(cacheDir, cacheLimit)[i].items|
    ensures var r := ParseWith(configPath, read, dataDirectory, imageType, cacheDir, cacheLimit, conv).value;
            var name := DefaultTable(cacheDir, cacheLimit)[i].name;
            var entry := DefaultTable(cacheDir, cacheLimit)[i].items[j];
            var loaded := SectionOf(InitialConfig(configPath, read, dataDirectory, imageType).value, name);
            && name in r && entry.key in r[name]
            && (entry.key !in loaded ==> r[name][entry.key] == entry.val)
            && (entry.key in loaded ==>
                  r[name][entry.key] == match PyInt(if conv.ConvertDefault? then entry.val else loaded[entry.key])
                                        case Some(n) => IntV(n)
                                        case None => loaded[entry.key])
  {
    var table := DefaultTable(cacheDir, cacheLimit);
    var init := InitialConfig(configPath, read, dataDirectory, imageType).value;
    FillDefaultsFillsSection(init, table, conv, i);
    FillSectionSpec(SectionOf(init, table[i].name), table[i].items, conv);
  }

  /** Sections the defaults table does not name, and entries the table does
      not list, come back as they were read. */
  lemma ParseWithKeepsOthers(configPath: Option<string>, read: FileRead, dataDirectory: Value, imageType: Value,
                             cacheDir: Value, cacheLimit: Value, conv: Conversion, name: string, key: string)
    requires ParseWith(configPath, read, dataDirectory, imageType, cacheDir, cacheLimit, conv).Ok?
    requires var init := InitialConfig(configPath, read, dataDirectory, imageType).value;
             name in init && key in init[name]
    requires forall i :: 0 <= i < |DefaultTable(cacheDir, cacheLimit)| && DefaultTable(cacheDir, cacheLimit)[i].name == name ==>
               key !in Keys(DefaultTable(cacheDir, cacheLimit)[i].items)
    ensures var r := ParseWith(configPath, read, dataDirectory, imageType, cacheDir, cacheLimit, conv).value;
            var init := InitialConfig(configPath, read, dataDirectory, imageType).value;
            name in r && key in r[name] && r[name][key] == init[name][key]
  {
    var table := DefaultTable(cacheDir, cacheLimit);
    var init := InitialConfig(configPath, read, dataDirectory, imageType).value;
    var r := ParseWith(configPath, read, dataDirectory, imageType, cacheDir, cacheLimit, conv).value;
    assert r == FillDefaults(init, table, conv);
    if name in SectionNames(table) {
      var i :| 0 <= i < |table| && SectionNames(table)[i] == name;
      FillDefaultsFillsSection(init, table, conv, i);
      FillSectionSpec(SectionOf(init, name), table[i].items, conv);
      assert key !in Keys(table[i].items);
      assert SectionOf(init, name) == init[name];
    } else {
      FillDefaultsKeepsOthers(init, table, conv, name);
    }
  }

  /** Without a config path, a data directory or image type is enough: the
      input section holds both as given, and every other entry of the
      defaults table takes its default. */
  lemma ParseWithoutFile(configPath: Option<string>, read: FileRead, dataDirectory: Value, imageType: Value,
                         cacheDir: Value, cacheLimit: Value, conv: Conversion)
    requires configPath.None? || configPath.value == ""
    requires Truthy(dataDirectory) || Truthy(imageType)
    ensures var r := ParseWith(configPath, read, dataDirectory, imageType, cacheDir, cacheLimit, conv);
            && r.Ok?
            && Holds(r.value, InputSection, DataDirectory, dataDirectory)
            && Holds(r.value, InputSection, ImageType, imageType)
            && Holds(r.value, InputSection, "extension", NoneV)
            && Holds(r.value, "cache", "cache_dir", cacheDir) && Holds(r.value, "cache", "cache_limit", cacheLimit)
            && Holds(r.value, "ml", "chunk_size", IntV(17)) && Holds(r.value, "ml", "batch_size", IntV(2))
  {
    var table := DefaultTable(cacheDir, cacheLimit);
    var init := InitialConfig(configPath, read, dataDirectory, imageType).value;
    var r := ParseWith(configPath, read, dataDirectory, imageType, cacheDir, cacheLimit, conv);
    assert r.Ok?;
    assert Keys(table[0].items) == ["extension"];
    ParseWithKeepsOthers(configPath, read, dataDirectory, imageType, cacheDir, cacheLimit, conv, InputSection, DataDirectory);
    ParseWithKeepsOthers(configPath, read, dataDirectory, imageType, cacheDir, cacheLimit, conv, InputSection, ImageType);
    ParseWithEntry(configPath, read, dataDirectory, imageType, cacheDir, cacheLimit, conv, 0, 0);
    ParseWithEntry(configPath, read, dataDirectory, imageType, cacheDir, cacheLimit, conv, 1, 0);
    ParseWithEntry(configPath, read, dataDirectory, imageType, cacheDir, cacheLimit, conv, 1, 1);
    ParseWithEntry(configPath, read, dataDirectory, imageType, cacheDir, cacheLimit, conv, 2, 0);
    ParseWithEntry(configPath, read, dataDirectory, imageType, cacheDir, cacheLimit, conv, 2, 3);
  }

  /** As written, a present entry whose default is an integer is replaced by
      that default: the value the file gave is lost. */
  lemma AsWrittenEntry(configPath: Option<string>, read: FileRead, dataDirectory: Value, imageType: Value,
                       cacheDir: Value, cacheLimit: Value, i: nat, j: nat)
    requires ParseConfigFile(configPath, read, dataDirectory, imageType, cacheDir, cacheLimit).Ok?
    requires i < |DefaultTable(cacheDir, cacheLimit)| && j < |DefaultTable(cacheDir, cacheLimit)[i].items|
    requires DefaultTable(cacheDir, cacheLimit)[i].items[j].val.IntV?
    ensures var r := ParseConfigFile(configPath, read, dataDirectory, imageType, cacheDir, cacheLimit).value;
            var name := DefaultTable(cacheDir, cacheLimit)[i].name;
            var entry := DefaultTable(cacheDir, cacheLimit)[i].items[j];
            name in r && entry.key in r[name] && r[name][entry.key] == entry.val
  {
    ParseWithEntry(configPath, read, dataDirectory, imageType, cacheDir, cacheLimit, ConvertDefault, i, j);
  }

  /** The discrepancy on a concrete file: "chunk_size = 33" under [ml]
      parses to the default 17, not to 33. */
  lemma AsWrittenDiscardsChunkSize(path: string, config: Config, cacheDir: Value, cacheLimit: Value)
    requires path != ""
    requires InputSection in config && DataDirectory in config[InputSection] && ImageType in config[InputSection]
    requires "ml" in config && config["ml"] == map["chunk_size" := StrV("33")]
    ensures var r := ParseConfigFile(Some(path), Sections(config), NoneV, NoneV, cacheDir, cacheLimit);
            r.Ok? && Holds(r.value, "ml", "chunk_size", IntV(17))
    ensures var r := ParseConfigFileCorrected(Some(path), Sections(config), NoneV, NoneV, cacheDir, cacheLimit);
            r.Ok? && Holds(r.value, "ml", "chunk_size", IntV(33))
  {
    AsWrittenEntry(Some(path), Sections(config), NoneV, NoneV, cacheDir, cacheLimit, 2, 0);
    ShowIntText33();
    PyIntOfText(33);
    CorrectedEntry(Some(path), Sections(config), NoneV, NoneV, cacheDir, cacheLimit, 2, 0);
  }

  lemma ShowIntText33()
    ensures PyInt(StrV("33")) == Some(33)
  {
    PyIntOfText(33);
    assert DigitChar(3) == '3';
    assert NatDigits(33) == NatDigits(3) + [DigitChar(3)];
    assert ShowInt(33) == "33";
  }

  /** As intended: a present entry keeps the value the input gave, turned
      into an integer when it is one. */
  lemma CorrectedEntry(configPath: Option<string>, read: FileRead, dataDirectory: Value, imageType: Value,
                       cacheDir: Value, cacheLimit: Value, i: nat, j: nat)
    requires ParseConfigFileCorrected(configPath, read, dataDirectory, imageType, cacheDir, cacheLimit).Ok?
    requires i < |DefaultTable(cacheDir, cacheLimit)| && j < |DefaultTable(cacheDir, cacheLimit)[i].items|
    ensures var r := ParseConfigFileCorrected(configPath, read, dataDirectory, imageType, cacheDir, cacheLimit).value;
            var name := DefaultTable(cacheDir, cacheLimit)[i].name;
            var entry := DefaultTable(cacheDir, cacheLimit)[i].items[j];
            var loaded := SectionOf(InitialConfig(configPath, read, dataDirectory, imageType).value, name);
            && name in r && entry.key in r[name]
            && (entry.key in loaded && PyInt(loaded[entry.key]).Some? ==>
                  r[name][entry.key] == IntV(PyInt(loaded[entry.key]).value))
            && (entry.key in loaded && PyInt(loaded[entry.key]).None? ==>
                  r[name][entry.key] == loaded[entry.key])
            && (entry.key !in loaded ==> r[name][entry.key] == entry.val)
  {
    ParseWithEntry(configPath, read, dataDirectory, imageType, cacheDir, cacheLimit, ConvertLoaded, i, j);
  }
}
