/** Landsat MTL metadata parsing: `allocate_bands_for_spacecraft` and
    `parse_mtl_file` of delta/scripts/landsat_toa.py, as a fold over the
    lines of the file. Opening and reading the file are left to the caller,
    which hands over the lines. */
module Mtl {
  import opened Wrappers
  import opened Strings

  /** One entry of a coefficient table. `Str` is text (a file name), `Int`
      an allocation default, and `Float(text)` stands for `float(text)` of a
      value read from the file, kept as its text. */
  datatype Coef = Str(s: string) | Int(i: int) | Float(text: string)

  /** The desired tags, in the order the parser tries them. */
  datatype Tag =
    | FileName | RadianceMult | RadianceAdd | ReflectanceMult
    | ReflectanceAdd | K1Constant | K2Constant

  /** The tag's spelling in an MTL file (and its key in the result). */
  function TagName(tag: Tag): string {
    match tag
    case FileName => "FILE_NAME"
    case RadianceMult => "RADIANCE_MULT"
    case RadianceAdd => "RADIANCE_ADD"
    case ReflectanceMult => "REFLECTANCE_MULT"
    case ReflectanceAdd => "REFLECTANCE_ADD"
    case K1Constant => "K1_CONSTANT"
    case K2Constant => "K2_CONSTANT"
  }

  /** Per-tag tables indexed by zero-based band. */
  type Tables = map<Tag, seq<Coef>>

  /** The exceptions the parser lets escape. */
  datatype MtlError =
    | UnknownSpacecraft(id: string)          // KeyError from the band-count table
    | MissingValue(line: string)             // IndexError: a tag line without '='
    | NoSpacecraftYet(tag: Tag)              // TypeError: a tag line before storage exists
    | BandOutOfRange(tag: Tag, band: int)    // IndexError from a coefficient table
    | BadFloat(tag: Tag, value: string)      // ValueError from float()
    | FileNotFound                           // the path does not exist

  /** The i-th desired tag, in the order the parser tries them. */
  function TagAt(i: nat): Tag
    requires i < 7
  {
    [FileName, RadianceMult, RadianceAdd, ReflectanceMult, ReflectanceAdd, K1Constant, K2Constant][i]
  }

  /** The position of a tag among the desired tags. */
  function TagIndex(tag: Tag): (i: nat)
    ensures i < 7 && TagAt(i) == tag
  {
    match tag
    case FileName => 0
    case RadianceMult => 1
    case RadianceAdd => 2
    case ReflectanceMult => 3
    case ReflectanceAdd => 4
    case K1Constant => 5
    case K2Constant => 6
  }

  /** All desired tags. Built from `TagAt` rather than written as a display
      so that the verifier does not unroll the whole scan over a literal
      list wherever a line is parsed. */
  function DesiredTags(): (tags: seq<Tag>)
    ensures |tags| == 7
  {
    var tags := seq(7, i requires 0 <= i < 7 => TagAt(i));
    assert tags[0] == FileName && tags[1] == RadianceMult && tags[2] == RadianceAdd;
    assert tags[3] == ReflectanceMult && tags[4] == ReflectanceAdd;
    assert tags[5] == K1Constant && tags[6] == K2Constant;
    tags
  }

  const SpacecraftMarker: string := "SPACECRAFT_ID = LANDSAT_"

  /** One table per desired tag, all of the same length. */
  ghost predicate WellFormed(t: Tables) {
    && FileName in t && RadianceMult in t && RadianceAdd in t && ReflectanceMult in t
    && ReflectanceAdd in t && K1Constant in t && K2Constant in t
    && |t[RadianceMult]| == |t[FileName]| && |t[RadianceAdd]| == |t[FileName]|
    && |t[ReflectanceMult]| == |t[FileName]| && |t[ReflectanceAdd]| == |t[FileName]|
    && |t[K1Constant]| == |t[FileName]| && |t[K2Constant]| == |t[FileName]|
  }

  /** Every tag has a table, of the common length. */
  lemma WellFormedTable(t: Tables, tag: Tag)
    requires WellFormed(t)
    ensures tag in t && |t[tag]| == |t[FileName]|
  {
    match tag
    case FileName =>
    case RadianceMult =>
    case RadianceAdd =>
    case ReflectanceMult =>
    case ReflectanceAdd =>
    case K1Constant =>
    case K2Constant =>
  }

  function BandCount(id: string): Option<nat> {
    if id == "5" then Some(7)
    else if id == "7" then Some(8)
    else if id == "8" then Some(11)
    else None
  }

  function InitialCoef(tag: Tag): Coef {
    match tag
    case FileName => Str("")
    case RadianceAdd | ReflectanceAdd => Int(0)
    case _ => Int(1)
  }

  /** Band storage for a spacecraft: Landsat 5, 7 and 8 get 7, 8 and 11
      bands; file names start empty, additive terms at 0 and the
      multiplicative terms and K constants at 1. Any other id fails. */
  function AllocateBands(id: string): (r: Result<Tables, MtlError>)
    ensures r.Ok? <==> id == "5" || id == "7" || id == "8"
    ensures r.Err? ==> r.error == UnknownSpacecraft(id)
    ensures r.Ok? ==> WellFormed(r.value)
    ensures id == "5" ==> r.Ok? && |r.value[FileName]| == 7
    ensures id == "7" ==> r.Ok? && |r.value[FileName]| == 8
    ensures id == "8" ==> r.Ok? && |r.value[FileName]| == 11
    ensures r.Ok? ==> forall i :: 0 <= i < |r.value[FileName]| ==>
      && r.value[FileName][i] == Str("")
      && r.value[RadianceMult][i] == Int(1)
      && r.value[RadianceAdd][i] == Int(0)
      && r.value[ReflectanceMult][i] == Int(1)
      && r.value[ReflectanceAdd][i] == Int(0)
      && r.value[K1Constant][i] == Int(1)
      && r.value[K2Constant][i] == Int(1)
  {
    match BandCount(id)
    case None => Err(UnknownSpacecraft(id))
    case Some(n) =>
      Ok(map tag: Tag :: Repeat(InitialCoef(tag), n))
  }

  /** `n` copies of `c`: Python's `[c] * n`. */
  function Repeat(c: Coef, n: nat): (s: seq<Coef>)
    ensures |s| == n
    ensures forall i :: 0 <= i < n ==> s[i] == c
  {
    if n == 0 then [] else [c] + Repeat(c, n - 1)
  }

  /** The id at the end of a spacecraft line: `line.split('_')[-1].strip()`.
      It holds no underscore and no whitespace at either end. */
  function SpacecraftId(line: string): (id: string)
    ensures '_' !in id
    ensures Trimmed(id)
  {
    var f := LastField(line, '_');
    StripKeepsAbsent(f, '_');
    Strip(f)
  }

  /** Python list indexing: `-len <= i < len` is accepted and a negative
      index counts from the end. */
  function PyIndex(i: int, len: nat): (r: Option<nat>)
    ensures r.Some? <==> -(len as int) <= i < len
    ensures r.Some? ==> r.value < len && (r.value == i || r.value == i + len)
  {
    if 0 <= i < len then Some(i)
    else if -(len as int) <= i < 0 then Some(i + len)
    else None
  }

  /** The value stored for a tag: text for FILE_NAME, a float otherwise. */
  function EntryFor(tag: Tag, value: string): Coef {
    if tag == FileName then Str(value) else Float(value)
  }

  /** Whether `float()` accepts the value where the tag needs one: FILE_NAME
      keeps its text, every other tag converts it. */
  predicate Storable(tag: Tag, value: string): (b: bool)
    ensures ParseInt(value).Some? ==> b
    ensures b && tag != FileName ==> Strip(value) != []
  {
    IntTextIsFloatText(value);
    tag == FileName || IsFloatText(value)
  }

  /** The `_BAND` pattern searched for each tag. */
  function Pattern(tag: Tag): string {
    TagName(tag) + "_BAND"
  }

  /** The band number a tag line names: the integer after the last '_' of
      the text before the first '='. Depends on the line alone. */
  function LineBand(line: string): (band: Option<int>)
    ensures band.Some? ==> IsIntText(Strip(LastField(Strip(Split(line, '=')[0]), '_')))
  {
    ParseInt(LastField(Strip(Split(line, '=')[0]), '_'))
  }

  /** The value text of a tag line: the stripped text between the first and
      the second '='. */
  function LineValue(line: string): (value: string)
    requires |Split(line, '=')| >= 2
    ensures '=' !in value
    ensures Trimmed(value)
  {
    SplitFieldsFree(line, '=');
    StripKeepsAbsent(Split(line, '=')[1], '=');
    Strip(Split(line, '=')[1])
  }

  /** A line `name=rest` whose name holds no '=' takes its band from the
      name alone, and, when `rest` holds no further '=', its value is the
      whole of `rest`, stripped. */
  lemma TagLineFields(name: string, rest: string)
    requires '=' !in name
    ensures |Split(name + "=" + rest, '=')| >= 2
    ensures LineBand(name + "=" + rest) == ParseInt(LastField(Strip(name), '_'))
    ensures '=' !in rest ==> LineValue(name + "=" + rest) == Strip(rest)
  {
    var line := name + "=" + rest;
    assert line == name + ("=" + rest);
    SplitFreePrefix(name, "=" + rest, '=');
    assert ("=" + rest)[1..] == rest;
    assert Split("=" + rest, '=') == [""] + Split(rest, '=');
    assert Split(line, '=')[0] == name;
    if '=' !in rest {
      SplitAbsent(rest, '=');
    }
  }

  /** What one tag does to the loop: go on with (possibly updated) data, or
      leave it. */
  datatype Step = Continue(next: Option<Tables>) | Break

  /** One iteration of the loop over the desired tags. A line that does not
      name the tag goes on unchanged; one that names it needs a value after
      '=', leaves the loop when its band suffix is not an integer, needs a
      value `float()` accepts (except for FILE_NAME), needs storage, and
      writes entry band-1 (Python indexing) of the tag's table. Only that
      table changes. */
  function TagStep(data: Option<Tables>, line: string, tag: Tag): (r: Result<Step, MtlError>)
    requires data.Some? ==> WellFormed(data.value)
    ensures r.Ok? && r.value.Continue? ==> (r.value.next.Some? <==> data.Some?)
    ensures r.Ok? && r.value.Continue? && data.Some? ==>
      && WellFormed(r.value.next.value)
      && |r.value.next.value[FileName]| == |data.value[FileName]|
    ensures !Contains(line, Pattern(tag)) ==> r == Ok(Continue(data))
  {
    if !Contains(line, Pattern(tag)) then Ok(Continue(data))
    else NamedTagStep(data, line, tag)
  }

  /** The iteration for a line that names the tag. */
  function NamedTagStep(data: Option<Tables>, line: string, tag: Tag): (r: Result<Step, MtlError>)
    requires data.Some? ==> WellFormed(data.value)
    ensures r.Ok? && r.value.Continue? ==> r.value.next.Some? && data.Some?
    ensures r.Ok? && r.value.Continue? && data.Some? ==>
      && WellFormed(r.value.next.value)
      && |r.value.next.value[FileName]| == |data.value[FileName]|
  {
    if |Split(line, '=')| < 2 then Err(MissingValue(line))
    else
      match LineBand(line)
      case None => Ok(Break)
      case Some(n) => BandStep(data, tag, n, LineValue(line))
  }

  /** The iteration once the line's band `n` and value text are known.
      Python evaluates the right-hand side `float(value)` before it looks
      up the target `data[tag][band]`, so a bad value is reported first. */
  function BandStep(data: Option<Tables>, tag: Tag, n: int, value: string): (r: Result<Step, MtlError>)
    requires data.Some? ==> WellFormed(data.value)
    ensures r.Ok? ==> r.value.Continue? && r.value.next.Some? && data.Some?
    ensures r.Ok? ==>
      && WellFormed(r.value.next.value)
      && |r.value.next.value[FileName]| == |data.value[FileName]|
  {
    if !Storable(tag, value) then Err(BadFloat(tag, value))
    else if data.None? then Err(NoSpacecraftYet(tag))
    else
      WellFormedTable(data.value, tag);
      var table := data.value[tag];
      match PyIndex(n - 1, |table|)
      case None => Err(BandOutOfRange(tag, n - 1))
      case Some(idx) =>
        Ok(Continue(Some(WriteEntry(data.value, tag, idx, EntryFor(tag, value)))))
  }

  /** The loop over the desired tags for one line (quotes already removed). */
  function ScanTags(data: Option<Tables>, line: string, tags: seq<Tag>): (r: Result<Option<Tables>, MtlError>)
    requires data.Some? ==> WellFormed(data.value)
    ensures r.Ok? ==> (r.value.Some? <==> data.Some?)
    ensures r.Ok? && r.value.Some? ==>
      WellFormed(r.value.value) && |r.value.value[FileName]| == |data.value[FileName]|
    ensures r.Err? ==> !r.error.FileNotFound?
    decreases |tags|
  {
    if |tags| == 0 then Ok(data)
    else
      match TagStep(data, line, tags[0])
      case Err(e) => Err(e)
      case Ok(Break) => Ok(data)
      case Ok(Continue(next)) => ScanTags(next, line, tags[1..])
  }

  /** `data[tag][idx] = e`: that entry holds the new value, and every
      other entry, and every other table, is unchanged. */
  function WriteEntry(t: Tables, tag: Tag, idx: nat, e: Coef): (u: Tables)
    requires WellFormed(t) && tag in t && idx < |t[tag]|
    ensures WellFormed(u) && tag in u && |u[tag]| == |t[tag]| && u[tag][idx] == e
    ensures |u[FileName]| == |t[FileName]|
    ensures forall j :: 0 <= j < |t[tag]| && j != idx ==> u[tag][j] == t[tag][j]
    ensures forall o :: o in t && o != tag ==> o in u && u[o] == t[o]
  {
    WellFormedTable(t, tag);
    t[tag := t[tag][idx := e]]
  }

  /** One line of the file: strip the double quotes, (re)allocate storage on
      the spacecraft line, then look for the desired tags. */
  function ParseLine(data: Option<Tables>, line: string): (r: Result<Option<Tables>, MtlError>)
    requires data.Some? ==> WellFormed(data.value)
    ensures r.Ok? && r.value.Some? ==> WellFormed(r.value.value)
    ensures r.Err? ==> !r.error.FileNotFound?
  {
    var l := RemoveChar(line, '"');
    var d :- if Contains(l, SpacecraftMarker) then
               (match AllocateBands(SpacecraftId(l))
                case Ok(t) => Ok(Some(t))
                case Err(e) => Err(e))
             else Ok(data);
    ScanTags(d, l, DesiredTags())
  }

  /** The fold over the remaining lines; the first exception ends it. */
  function ParseLines(data: Option<Tables>, lines: seq<string>): (r: Result<Option<Tables>, MtlError>)
    requires data.Some? ==> WellFormed(data.value)
    ensures r.Ok? && r.value.Some? ==> WellFormed(r.value.value)
    ensures r.Err? ==> !r.error.FileNotFound?
    decreases |lines|
  {
    if |lines| == 0 then Ok(data)
    else
      var d :- ParseLine(data, lines[0]);
      ParseLines(d, lines[1..])
  }

  /** `parse_mtl_file` on the file's lines, `None` standing for a path
      that does not exist. The result is `None` when no spacecraft line was
      seen and no tag line needed storage. */
  function ParseMtl(file: Option<seq<string>>): (r: Result<Option<Tables>, MtlError>)
    ensures file.None? <==> r == Err(FileNotFound)
    ensures r.Ok? && r.value.Some? ==> WellFormed(r.value.value)
  {
    match file
    case None => Err(FileNotFound)
    case Some(lines) => ParseLines(None, lines)
  }

  // ---------------------------------------------------------------------
  // The loop over the desired tags.
  // ---------------------------------------------------------------------

  /** The same loop with `continue` in place of `break` on a non-integer
      band suffix. */
  function ScanTagsContinue(data: Option<Tables>, line: string, tags: seq<Tag>): Result<Option<Tables>, MtlError>
    requires data.Some? ==> WellFormed(data.value)
    decreases |tags|
  {
    if |tags| == 0 then Ok(data)
    else
      match TagStep(data, line, tags[0])
      case Err(e) => Err(e)
      case Ok(Break) => ScanTagsContinue(data, line, tags[1..])
      case Ok(Continue(next)) => ScanTagsContinue(next, line, tags[1..])
  }

  /** A line that names none of the tags leaves the data as it is. */
  lemma {:induction false} ScanNoMatch(data: Option<Tables>, line: string, tags: seq<Tag>)
    requires data.Some? ==> WellFormed(data.value)
    requires forall i :: 0 <= i < |tags| ==> !Contains(line, Pattern(tags[i]))
    ensures ScanTags(data, line, tags) == Ok(data)
    decreases |tags|
  {
    if |tags| > 0 {
      ScanNoMatch(data, line, tags[1..]);
    }
  }

  /** With '=' present and no integer band suffix, no tag changes anything:
      the suffix is the same for every tag of the line. */
  lemma {:induction false} ScanContinueNonInteger(data: Option<Tables>, line: string, tags: seq<Tag>)
    requires data.Some? ==> WellFormed(data.value)
    requires |Split(line, '=')| >= 2 && LineBand(line).None?
    ensures ScanTagsContinue(data, line, tags) == Ok(data)
    decreases |tags|
  {
    if |tags| > 0 {
      ScanContinueNonInteger(data, line, tags[1..]);
    }
  }

  /** Leaving the loop on a non-integer band suffix is the same as skipping
      that tag and going on: `break` and `continue` agree on every line. */
  lemma {:induction false} BreakMatchesContinue(data: Option<Tables>, line: string, tags: seq<Tag>)
    requires data.Some? ==> WellFormed(data.value)
    ensures ScanTags(data, line, tags) == ScanTagsContinue(data, line, tags)
    decreases |tags|
  {
    if |tags| > 0 {
      match TagStep(data, line, tags[0])
      case Err(e) =>
      case Ok(Break) => ScanContinueNonInteger(data, line, tags[1..]);
      case Ok(Continue(next)) => BreakMatchesContinue(next, line, tags[1..]);
    }
  }

  /** A tag the line names, with a value and an integer band that indexes
      the tag's table, has exactly that entry written. */
  lemma TagStepWrites(t: Tables, line: string, tag: Tag, band: int, idx: nat)
    requires WellFormed(t) && Contains(line, Pattern(tag))
    requires |Split(line, '=')| >= 2 && LineBand(line) == Some(band)
    requires PyIndex(band - 1, |t[tag]|) == Some(idx)
    requires Storable(tag, LineValue(line))
    ensures idx < |t[tag]|
    ensures TagStep(Some(t), line, tag) == Ok(Continue(Some(WriteEntry(t, tag, idx, EntryFor(tag, LineValue(line))))))
  {
    var e := EntryFor(tag, LineValue(line));
    assert TagStep(Some(t), line, tag) == Ok(Continue(Some(WriteEntry(t, tag, idx, e))));
  }

  /** A line that names exactly one tag of a duplicate-free list, with an
      integer band that indexes that tag's table, writes exactly that entry. */
  lemma {:induction false} ScanOneMatch(t: Tables, line: string, tags: seq<Tag>, tag: Tag, band: int, idx: nat)
    requires WellFormed(t)
    requires forall i, j :: 0 <= i < j < |tags| ==> tags[i] != tags[j]
    requires tag in tags && Contains(line, Pattern(tag))
    requires forall o: Tag :: o != tag ==> !Contains(line, Pattern(o))
    requires |Split(line, '=')| >= 2 && LineBand(line) == Some(band)
    requires PyIndex(band - 1, |t[tag]|) == Some(idx)
    requires Storable(tag, LineValue(line))
    ensures idx < |t[tag]|
    ensures ScanTags(Some(t), line, tags) == Ok(Some(WriteEntry(t, tag, idx, EntryFor(tag, LineValue(line)))))
    decreases |tags|
  {
    if tags[0] == tag {
      TagStepWrites(t, line, tag, band, idx);
      ScanNoMatch(Some(WriteEntry(t, tag, idx, EntryFor(tag, LineValue(line)))), line, tags[1..]);
    } else {
      assert !Contains(line, Pattern(tags[0]));
      ScanOneMatch(t, line, tags[1..], tag, band, idx);
    }
  }

  // ---------------------------------------------------------------------
  // Properties of one line.
  // ---------------------------------------------------------------------

  /** Double quotes never matter: a line parses as it does without them. */
  lemma QuotesIgnored(data: Option<Tables>, line: string)
    requires data.Some? ==> WellFormed(data.value)
    ensures ParseLine(data, line) == ParseLine(data, RemoveChar(line, '"'))
  {
    RemoveCharAbsent(RemoveChar(line, '"'), '"');
  }

  /** A line with neither the spacecraft marker nor any tag pattern is
      ignored. */
  lemma UnrecognisedLineIgnored(data: Option<Tables>, line: string)
    requires '"' !in line
    requires data.Some? ==> WellFormed(data.value)
    requires !Contains(line, SpacecraftMarker)
    requires forall tag: Tag :: !Contains(line, Pattern(tag))
    ensures ParseLine(data, line) == Ok(data)
  {
    ParseLineNoMarker(data, line);
    ScanNoMatch(data, line, DesiredTags());
  }

  /** A spacecraft line discards whatever was parsed before and starts from
      freshly allocated storage, or fails on an unknown spacecraft. */
  lemma SpacecraftLineAllocates(data: Option<Tables>, line: string)
    requires '"' !in line
    requires data.Some? ==> WellFormed(data.value)
    requires Contains(line, SpacecraftMarker)
    requires forall tag: Tag :: !Contains(line, Pattern(tag))
    ensures var id := SpacecraftId(line);
      match AllocateBands(id)
      case Ok(t) => ParseLine(data, line) == Ok(Some(t))
      case Err(e) => ParseLine(data, line) == Err(UnknownSpacecraft(id))
  {
    RemoveCharAbsent(line, '"');
    match AllocateBands(SpacecraftId(line))
    case Ok(t) => ScanNoMatch(Some(t), line, DesiredTags());
    case Err(e) =>
  }

  /** A tag line whose band suffix is not an integer changes nothing (when
      it has a value at all). */
  lemma NonIntegerBandIgnored(data: Option<Tables>, line: string)
    requires '"' !in line
    requires data.Some? ==> WellFormed(data.value)
    requires !Contains(line, SpacecraftMarker)
    requires |Split(line, '=')| >= 2
    requires LineBand(line).None?
    ensures ParseLine(data, line) == Ok(data)
  {
    ParseLineNoMarker(data, line);
    BreakMatchesContinue(data, line, DesiredTags());
    ScanContinueNonInteger(data, line, DesiredTags());
  }

  /** A tag line without '=' fails, whatever has been parsed so far. */
  lemma TagLineWithoutValueFails(data: Option<Tables>, line: string, tag: Tag)
    requires '"' !in line
    requires data.Some? ==> WellFormed(data.value)
    requires !Contains(line, SpacecraftMarker)
    requires Contains(line, Pattern(tag))
    requires |Split(line, '=')| < 2
    ensures ParseLine(data, line) == Err(MissingValue(line))
  {
    ParseLineNoMarker(data, line);
    DesiredTagsEach();
    ScanFailsWithoutValue(data, line, DesiredTags(), tag);
  }

  lemma {:induction false} ScanFailsWithoutValue(data: Option<Tables>, line: string, tags: seq<Tag>, tag: Tag)
    requires data.Some? ==> WellFormed(data.value)
    requires tag in tags && Contains(line, Pattern(tag))
    requires |Split(line, '=')| < 2
    ensures ScanTags(data, line, tags) == Err(MissingValue(line))
    decreases |tags|
  {
    if tags[0] != tag {
      ScanFailsWithoutValue(data, line, tags[1..], tag);
    }
  }

  /** A line without the spacecraft marker that names exactly one desired
      tag, has a value after '=' and an integer band suffix. */
  ghost predicate SingleTagLine(l: string, tag: Tag) {
    && !Contains(l, SpacecraftMarker)
    && Contains(l, Pattern(tag))
    && (forall o: Tag :: o != tag ==> !Contains(l, Pattern(o)))
    && |Split(l, '=')| >= 2 && LineBand(l).Some?
  }

  /** A quote-free line without the spacecraft marker is just the tag
      scan. Any line parses as its quote-free form does (`QuotesIgnored`). */
  lemma ParseLineNoMarker(data: Option<Tables>, line: string)
    requires data.Some? ==> WellFormed(data.value)
    requires '"' !in line && !Contains(line, SpacecraftMarker)
    ensures ParseLine(data, line) == ScanTags(data, line, DesiredTags())
  {
    RemoveCharAbsent(line, '"');
  }

  /** The tag list names each tag once. */
  lemma DesiredTagsEach()
    ensures forall i, j :: 0 <= i < j < |DesiredTags()| ==> DesiredTags()[i] != DesiredTags()[j]
    ensures forall tag: Tag :: tag in DesiredTags()
  {
    forall tag: Tag
      ensures tag in DesiredTags()
    {
      assert DesiredTags()[TagIndex(tag)] == tag;
    }
    forall i, j | 0 <= i < j < 7
      ensures DesiredTags()[i] != DesiredTags()[j]
    {
      assert DesiredTags()[i] == TagAt(i) && DesiredTags()[j] == TagAt(j);
    }
  }

  /** A line that names exactly one tag, with an integer band whose
      Python index `band - 1` lies in that tag's table, writes the value
      (text for FILE_NAME, a float otherwise) into exactly that entry and
      changes nothing else (see `WriteEntry`). Bands 1..N address entries
      0..N-1; band 0 and negative bands count from the end. */
  lemma TagLineWritesOneEntry(t: Tables, line: string, tag: Tag, band: int, idx: nat)
    requires WellFormed(t)
    requires '"' !in line
    requires SingleTagLine(line, tag)
    requires LineBand(line) == Some(band)
    requires PyIndex(band - 1, |t[tag]|) == Some(idx)
    requires Storable(tag, LineValue(line))
    ensures ParseLine(Some(t), line) == Ok(Some(WriteEntry(t, tag, idx, EntryFor(tag, LineValue(line)))))
  {
    ParseLineNoMarker(Some(t), line);
    DesiredTagsEach();
    ScanOneMatch(t, line, DesiredTags(), tag, band, idx);
  }

  /** A band outside -N+1..N fails with the out-of-range index. */
  lemma TagLineBandOutOfRange(t: Tables, line: string, tag: Tag, band: int)
    requires '"' !in line
    requires WellFormed(t)
    requires SingleTagLine(line, tag)
    requires LineBand(line) == Some(band)
    requires band > |t[tag]| || band <= -|t[tag]|
    requires Storable(tag, LineValue(line))
    ensures ParseLine(Some(t), line) == Err(BandOutOfRange(tag, band - 1))
  {
    assert PyIndex(band - 1, |t[tag]|).None?;
    ParseLineNoMarker(Some(t), line);
    DesiredTagsEach();
    ScanBandOutOfRange(t, line, DesiredTags(), tag, band);
  }

  /** A tag line whose value `float()` rejects fails, whether or not
      storage exists and whatever its band: the conversion comes first. */
  lemma TagLineBadFloatFails(data: Option<Tables>, line: string, tag: Tag)
    requires '"' !in line
    requires data.Some? ==> WellFormed(data.value)
    requires SingleTagLine(line, tag)
    requires !Storable(tag, LineValue(line))
    ensures ParseLine(data, line) == Err(BadFloat(tag, LineValue(line)))
  {
    ParseLineNoMarker(data, line);
    DesiredTagsEach();
    ScanBadFloat(data, line, DesiredTags(), tag);
  }

  /** A named tag with an integer band and a value `float()` rejects fails. */
  lemma {:induction false} ScanBadFloat(data: Option<Tables>, line: string, tags: seq<Tag>, tag: Tag)
    requires data.Some? ==> WellFormed(data.value)
    requires tag in tags && Contains(line, Pattern(tag))
    requires forall o: Tag :: o != tag ==> !Contains(line, Pattern(o))
    requires |Split(line, '=')| >= 2 && LineBand(line).Some?
    requires !Storable(tag, LineValue(line))
    ensures ScanTags(data, line, tags) == Err(BadFloat(tag, LineValue(line)))
    decreases |tags|
  {
    if tags[0] != tag {
      assert TagStep(data, line, tags[0]) == Ok(Continue(data));
      assert tag in tags[1..];
      ScanBadFloat(data, line, tags[1..], tag);
    } else {
      assert TagStep(data, line, tag) == NamedTagStep(data, line, tag);
      assert NamedTagStep(data, line, tag) == BandStep(data, tag, LineBand(line).value, LineValue(line));
    }
  }

  /** A tag line with an integer band before any spacecraft line fails. */
  lemma TagLineBeforeSpacecraftFails(line: string, tag: Tag)
    requires '"' !in line
    requires SingleTagLine(line, tag)
    requires Storable(tag, LineValue(line))
    ensures ParseLine(None, line) == Err(NoSpacecraftYet(tag))
  {
    ParseLineNoMarker(None, line);
    DesiredTagsEach();
    ScanWithoutStorage(line, DesiredTags(), tag);
  }

  /** A named tag with an integer band fails while there is no storage. */
  lemma {:induction false} ScanWithoutStorage(line: string, tags: seq<Tag>, tag: Tag)
    requires tag in tags && Contains(line, Pattern(tag))
    requires forall o: Tag :: o != tag ==> !Contains(line, Pattern(o))
    requires |Split(line, '=')| >= 2 && LineBand(line).Some?
    requires Storable(tag, LineValue(line))
    ensures ScanTags(None, line, tags) == Err(NoSpacecraftYet(tag))
    decreases |tags|
  {
    if tags[0] != tag {
      assert TagStep(None, line, tags[0]) == Ok(Continue(None));
      assert tag in tags[1..];
      ScanWithoutStorage(line, tags[1..], tag);
    }
  }

  /** A named tag whose band does not index its table fails. */
  lemma {:induction false} ScanBandOutOfRange(t: Tables, line: string, tags: seq<Tag>, tag: Tag, band: int)
    requires WellFormed(t)
    requires tag in tags && Contains(line, Pattern(tag))
    requires forall o: Tag :: o != tag ==> !Contains(line, Pattern(o))
    requires |Split(line, '=')| >= 2 && LineBand(line) == Some(band)
    requires PyIndex(band - 1, |t[tag]|).None?
    requires Storable(tag, LineValue(line))
    ensures ScanTags(Some(t), line, tags) == Err(BandOutOfRange(tag, band - 1))
    decreases |tags|
  {
    if tags[0] == tag {
      TagStepOutOfRange(t, line, tag, band);
    } else {
      assert TagStep(Some(t), line, tags[0]) == Ok(Continue(Some(t)));
      assert tag in tags[1..];
      ScanBandOutOfRange(t, line, tags[1..], tag, band);
    }
  }

  lemma TagStepOutOfRange(t: Tables, line: string, tag: Tag, band: int)
    requires WellFormed(t) && Contains(line, Pattern(tag))
    requires |Split(line, '=')| >= 2 && LineBand(line) == Some(band)
    requires PyIndex(band - 1, |t[tag]|).None?
    requires Storable(tag, LineValue(line))
    ensures TagStep(Some(t), line, tag) == Err(BandOutOfRange(tag, band - 1))
  {
    assert TagStep(Some(t), line, tag) == NamedTagStep(Some(t), line, tag);
    assert NamedTagStep(Some(t), line, tag) == BandStep(Some(t), tag, band, LineValue(line));
    WellFormedTable(t, tag);
    assert BandStep(Some(t), tag, band, LineValue(line)) == Err(BandOutOfRange(tag, band - 1));
  }

  // ---------------------------------------------------------------------
  // The whole file.
  // ---------------------------------------------------------------------

  /** Parsing is a left fold: a file split in two parses as its first part
      followed by its second part. */
  lemma {:induction false} ParseLinesAppend(data: Option<Tables>, a: seq<string>, b: seq<string>)
    requires data.Some? ==> WellFormed(data.value)
    ensures ParseLines(data, a + b) ==
      match ParseLines(data, a)
      case Ok(d) => ParseLines(d, b)
      case Err(e) => Err(e)
    decreases |a|
  {
    if |a| == 0 {
      assert a + b == b;
    } else {
      assert (a + b)[1..] == a[1..] + b;
      match ParseLine(data, a[0])
      case Ok(d) => ParseLinesAppend(d, a[1..], b);
      case Err(e) =>
    }
  }
}
