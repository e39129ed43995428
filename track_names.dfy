/** Decomposition of a track's file name into type, sequence index, descriptive
    name and extension (`src/track_name_info.rs`).

    The two regular expressions of the program are written out as recognisers
    over the stem's characters. `IsViolinLayeringMatch` and `IsMuseScoreMatch`
    state, as a shape of the whole stem, what each pattern accepts and what it
    captures; the lemmas prove the recognisers return exactly those captures.
 */
module TrackNames {
  import opened Outcomes
  import opened Text

  datatype TrackType = UnknownType | ViolinLayering | MuseScore | Piano | Voice

  /** Abbreviated name for compact display. */
  function Shortname(t: TrackType): (r: string)
    ensures 1 <= |r| <= 2
    ensures r == "?" <==> t == UnknownType
  {
    match t
    case UnknownType => "?"
    case ViolinLayering => "VL"
    case MuseScore => "MS"
    case Piano => "P"
    case Voice => "V"
  }

  /** Abbreviated name safe for use in file names: only letters. */
  function ShortnameSafe(t: TrackType): (r: string)
    ensures t != UnknownType ==> r == Shortname(t)
    ensures r != [] && forall i :: 0 <= i < |r| ==> IsAlpha(r[i])
  {
    match t
    case UnknownType => "t"
    case _ => Shortname(t)
  }

  /** Every track type has its own display abbreviation. */
  lemma ShortnameInjective(a: TrackType, b: TrackType)
    requires Shortname(a) == Shortname(b)
    ensures a == b
  {
  }

  /** The file-name-safe abbreviations are distinct too, and only the unknown
      type's differs from its display form. */
  lemma ShortnameSafeInjective(a: TrackType, b: TrackType)
    ensures ShortnameSafe(a) == ShortnameSafe(b) ==> a == b
    ensures ShortnameSafe(a) != Shortname(a) <==> a == UnknownType
  {
  }

  datatype TrackExtension = Placeholder | Mp3 | Flac | Ogg | M4a | Mp4

  /** The name each variant carries in the program (its derived `Debug` text). */
  function ExtensionName(e: TrackExtension): (r: string)
    ensures r != [] && '.' !in r && '/' !in r
  {
    match e
    case Placeholder => "Placeholder"
    case Mp3 => "mp3"
    case Flac => "flac"
    case Ogg => "ogg"
    case M4a => "m4a"
    case Mp4 => "mp4"
  }

  const UNKNOWN_EXTENSION: string := "Unknown extension"

  /** `TrackExtension::from_str`: an exact, case-sensitive lookup of the five names. */
  function ParseExtension(s: string): (r: Result<TrackExtension>)
    ensures r.Ok? <==> s in {"mp3", "flac", "ogg", "m4a", "mp4"}
    ensures r.Ok? ==> r.value != Placeholder && ExtensionName(r.value) == s
    ensures !r.Ok? ==> r == Err(UNKNOWN_EXTENSION)
  {
    match s
    case "mp3" => Ok(Mp3)
    case "flac" => Ok(Flac)
    case "ogg" => Ok(Ogg)
    case "m4a" => Ok(M4a)
    case "mp4" => Ok(Mp4)
    case _ => Err(UNKNOWN_EXTENSION)
  }

  /** Parsing the name of a real extension gives it back; the placeholder's name is refused. */
  lemma ParseExtensionName(e: TrackExtension)
    ensures e != Placeholder ==> ParseExtension(ExtensionName(e)) == Ok(e)
    ensures e == Placeholder ==> ParseExtension(ExtensionName(e)) == Err(UNKNOWN_EXTENSION)
  {
  }

  /** Matching ignores no case: upper-case names and the empty text are errors. */
  lemma ParseExtensionCaseSensitive()
    ensures ParseExtension("MP3") == Err(UNKNOWN_EXTENSION)
    ensures ParseExtension("Flac") == Err(UNKNOWN_EXTENSION)
    ensures ParseExtension("") == Err(UNKNOWN_EXTENSION)
  {
  }

  /** Captures of `^v(?P<index>\d+)(?P<variant>[[:alpha:]]?)-(?P<id>.+)$`. */
  datatype ViolinCaptures = ViolinCaptures(index: string, variant: string, id: string)

  /** Captures of `^(?P<date>\d{8})(?P<variant>[[:alpha:]]?)-(?P<index>\d+)-(?P<id>.+)$`. */
  datatype MuseCaptures = MuseCaptures(date: string, variant: string, index: string, id: string)

  /** What `.+$` accepts: one or more characters, none of them a line feed. */
  predicate IsLineRest(s: string) { s != [] && '\n' !in s }

  /** What `[[:alpha:]]?` accepts. */
  predicate IsVariant(s: string) { |s| <= 1 && (s != [] ==> IsAlpha(s[0])) }

  /** The whole stem has the violin-layering shape with these captures. */
  predicate IsViolinLayeringMatch(stem: string, c: ViolinCaptures)
  {
    && c.index != [] && AllDigits(c.index)
    && IsVariant(c.variant)
    && IsLineRest(c.id)
    && stem == "v" + c.index + c.variant + "-" + c.id
  }

  /** The whole stem has the muse-score shape with these captures. */
  predicate IsMuseScoreMatch(stem: string, c: MuseCaptures)
  {
    && |c.date| == 8 && AllDigits(c.date)
    && IsVariant(c.variant)
    && c.index != [] && AllDigits(c.index)
    && IsLineRest(c.id)
    && stem == c.date + c.variant + "-" + c.index + "-" + c.id
  }

  /** `(?P<variant>[[:alpha:]]?)-`: an optional letter, then '-'. Gives the
      letter (or nothing) and the text after the '-'. */
  function VariantThenDash(s: string): (r: Option<(string, string)>)
    ensures r.Some? ==> IsVariant(r.value.0) && s == r.value.0 + "-" + r.value.1
  {
    if |s| >= 2 && IsAlpha(s[0]) && s[1] == '-' then
      assert s == s[..1] + "-" + s[2..];
      Some((s[..1], s[2..]))
    else if |s| >= 1 && s[0] == '-' then
      assert s == [] + "-" + s[1..];
      Some(([], s[1..]))
    else None
  }

  /** `(?P<index>\d+)-`: a greedy run of digits, then '-'. No shorter run can be
      followed by '-', so the greedy run is the only candidate. */
  function DigitsThenDash(s: string): (r: Option<(string, string)>)
    ensures r.Some? ==> r.value.0 != [] && AllDigits(r.value.0) && s == r.value.0 + "-" + r.value.1
  {
    var n := LeadingDigits(s);
    if 0 < n < |s| && s[n] == '-' then
      assert s == s[..n] + "-" + s[n + 1..];
      Some((s[..n], s[n + 1..]))
    else None
  }

  lemma VariantThenDashComplete(variant: string, rest: string)
    requires IsVariant(variant)
    ensures VariantThenDash(variant + "-" + rest) == Some((variant, rest))
  {
    var s := variant + "-" + rest;
    if variant == [] {
      assert s[1..] == rest;
    } else {
      assert s[..1] == variant && s[2..] == rest;
    }
  }

  lemma DigitsThenDashComplete(digits: string, rest: string)
    requires digits != [] && AllDigits(digits)
    ensures DigitsThenDash(digits + "-" + rest) == Some((digits, rest))
  {
    var s := digits + "-" + rest;
    assert s == digits + ("-" + rest);
    LeadingDigitsOf(digits, "-" + rest);
    assert s[..|digits|] == digits;
    assert s[|digits| + 1..] == rest;
  }

  /** The violin-layering pattern applied to a stem. The digit run is greedy;
      no shorter run can be followed by a letter or '-'. */
  function MatchViolinLayering(stem: string): (r: Option<ViolinCaptures>)
    ensures r.Some? ==> IsViolinLayeringMatch(stem, r.value)
  {
    if stem == [] || stem[0] != 'v' then None
    else
      var rest := stem[1..];
      var n := LeadingDigits(rest);
      if n == 0 then None
      else
        match VariantThenDash(rest[n..])
        case None => None
        case Some((variant, id)) =>
          if IsLineRest(id) then
            assert stem == "v" + rest[..n] + rest[n..];
            Some(ViolinCaptures(rest[..n], variant, id))
          else None
  }

  /** The muse-score pattern applied to a stem: exactly eight digits (a ninth
      digit is neither a letter nor '-'), the variant and '-', a digit run and
      '-', then the rest. */
  function MatchMuseScore(stem: string): (r: Option<MuseCaptures>)
    ensures r.Some? ==> IsMuseScoreMatch(stem, r.value)
  {
    if LeadingDigits(stem) < 8 then None
    else
      match VariantThenDash(stem[8..])
      case None => None
      case Some((variant, rest)) =>
        match DigitsThenDash(rest)
        case None => None
        case Some((index, id)) =>
          if IsLineRest(id) then
            DatePrefix(stem);
            Some(MuseCaptures(stem[..8], variant, index, id))
          else None
  }

  /** Eight leading digits make up the date capture, and the stem is that date and what follows it. */
  lemma DatePrefix(stem: string)
    requires LeadingDigits(stem) >= 8
    ensures |stem[..8]| == 8 && AllDigits(stem[..8]) && stem == stem[..8] + stem[8..]
  {
    assert stem[..8] == stem[..LeadingDigits(stem)][..8];
  }

  /** A stem of the violin-layering shape is matched with exactly its captures. */
  lemma ViolinLayeringMatchComplete(stem: string, c: ViolinCaptures)
    requires IsViolinLayeringMatch(stem, c)
    ensures MatchViolinLayering(stem) == Some(c)
  {
    var after := c.variant + "-" + c.id;
    var rest := stem[1..];
    assert rest == c.index + after;
    LeadingDigitsOf(c.index, after);
    var n := |c.index|;
    assert rest[..n] == c.index;
    assert rest[n..] == after;
    VariantThenDashComplete(c.variant, c.id);
  }

  /** A stem of the muse-score shape is matched with exactly its captures. */
  lemma MuseScoreMatchComplete(stem: string, c: MuseCaptures)
    requires IsMuseScoreMatch(stem, c)
    ensures MatchMuseScore(stem) == Some(c)
  {
    var tail := c.index + "-" + c.id;
    var after := c.variant + "-" + tail;
    assert stem == c.date + after;
    LeadingDigitsOf(c.date, after);
    assert stem[..8] == c.date;
    assert stem[8..] == after;
    VariantThenDashComplete(c.variant, tail);
    DigitsThenDashComplete(c.index, c.id);
  }

  /** The two shapes never both fit one stem: one starts with 'v', the other with a digit.
      So trying the violin-layering pattern first never changes the outcome. */
  lemma PatternsDisjoint(stem: string, v: ViolinCaptures, m: MuseCaptures)
    requires IsViolinLayeringMatch(stem, v)
    ensures !IsMuseScoreMatch(stem, m)
  {
    assert stem[0] == 'v';
  }

  /** `parse::<i32>().unwrap_or_default()` on a captured digit run. */
  function ParseIndex(digits: string): (r: int)
    requires digits != [] && AllDigits(digits)
    ensures 0 <= r <= I32_MAX
    ensures r == if DigitsValue(digits) <= I32_MAX then DigitsValue(digits) else 0
  {
    ParseDigits(digits, I32_MIN, I32_MAX);
    match ParseInteger(digits, I32_MIN, I32_MAX)
    case Some(v) => v
    case None => 0
  }

  datatype FilenameInfo = FilenameInfo(trackType: TrackType, index: int, name: string, extn: TrackExtension)

  /** `from_file_stem`, with the index the fallback branch uses as a parameter
      (0 in `src/track_name_info.rs`, 1 in `src/xspf_parser.rs`). */
  function FromFileStemWith(stem: string, fallbackIndex: int): (r: FilenameInfo)
    ensures r.extn == Placeholder
    ensures r.trackType in {UnknownType, ViolinLayering, MuseScore}
    ensures r.trackType == UnknownType ==> r.index == fallbackIndex && r.name == stem
    ensures r.trackType != UnknownType ==> 0 <= r.index <= I32_MAX && IsLineRest(r.name) && EndsWith(stem, r.name)
  {
    match MatchViolinLayering(stem)
    case Some(v) =>
      assert stem == "v" + v.index + v.variant + "-" + v.id;
      FilenameInfo(ViolinLayering, ParseIndex(v.index), v.id, Placeholder)
    case None =>
      match MatchMuseScore(stem)
      case Some(m) =>
        assert stem == m.date + m.variant + "-" + m.index + "-" + m.id;
        FilenameInfo(MuseScore, ParseIndex(m.index), m.id, Placeholder)
      case None =>
        FilenameInfo(UnknownType, fallbackIndex, stem, Placeholder)
  }

  /** A violin-layering stem: index from the digits, name the rest verbatim, letter dropped. */
  lemma ViolinLayeringStem(stem: string, c: ViolinCaptures, fallbackIndex: int)
    requires IsViolinLayeringMatch(stem, c)
    ensures FromFileStemWith(stem, fallbackIndex) == FilenameInfo(ViolinLayering, ParseIndex(c.index), c.id, Placeholder)
  {
    ViolinLayeringMatchComplete(stem, c);
  }

  /** A muse-score stem: index from the second digit run, name the rest verbatim, date dropped. */
  lemma MuseScoreStem(stem: string, c: MuseCaptures, fallbackIndex: int)
    requires IsMuseScoreMatch(stem, c)
    ensures FromFileStemWith(stem, fallbackIndex) == FilenameInfo(MuseScore, ParseIndex(c.index), c.id, Placeholder)
  {
    MuseScoreMatchComplete(stem, c);
    match MatchViolinLayering(stem)
    case Some(v) =>
      PatternsDisjoint(stem, v, c);
    case None =>
  }

  /** The fallback is taken exactly when neither shape fits the stem. */
  lemma UnknownStem(stem: string, fallbackIndex: int)
    ensures FromFileStemWith(stem, fallbackIndex).trackType == UnknownType <==>
              (forall v :: !IsViolinLayeringMatch(stem, v)) && (forall m :: !IsMuseScoreMatch(stem, m))
  {
    if FromFileStemWith(stem, fallbackIndex).trackType == UnknownType {
      forall v | IsViolinLayeringMatch(stem, v) ensures false {
        ViolinLayeringMatchComplete(stem, v);
      }
      forall m | IsMuseScoreMatch(stem, m) ensures false {
        MuseScoreMatchComplete(stem, m);
      }
    }
  }

  /** The fallback index matters only when neither shape fits. */
  lemma FallbackOnlyForUnknown(stem: string, a: int, b: int)
    ensures FromFileStemWith(stem, a).trackType == FromFileStemWith(stem, b).trackType
    ensures FromFileStemWith(stem, a).trackType != UnknownType ==> FromFileStemWith(stem, a) == FromFileStemWith(stem, b)
    ensures FromFileStemWith(stem, a).trackType == UnknownType ==> FromFileStemWith(stem, a) == FromFileStemWith(stem, b).(index := a)
  {
  }

  /** `FilenameInfoComponents::from_file_stem` of `src/track_name_info.rs`. */
  function FromFileStem(stem: string): (r: FilenameInfo)
    ensures 0 <= r.index <= I32_MAX
    ensures r.trackType == UnknownType ==> r.index == 0 && r.name == stem
  {
    FromFileStemWith(stem, 0)
  }

  /** The indices the example stems carry, zero-padded as they are in the names. */
  lemma PaddedIndexExamples()
    ensures ParseIndex("01") == 1 && ParseIndex("05") == 5 && ParseIndex("02") == 2
  {
    assert DigitsValue("01") == 1;
    assert DigitsValue("05") == 5;
    assert DigitsValue("02") == 2;
  }

  /** The example stems have the shapes their names suggest. */
  lemma TranquilShape()
    ensures IsViolinLayeringMatch("v01-tranquil", ViolinCaptures("01", "", "tranquil"))
  {
  }

  lemma WildWestShape()
    ensures IsViolinLayeringMatch("v05L-wild_west", ViolinCaptures("05", "L", "wild_west"))
  {
  }

  lemma TouchedByAnAngelShape()
    ensures IsMuseScoreMatch("20170802-02-TouchedByAnAngel", MuseCaptures("20170802", "", "02", "TouchedByAnAngel"))
  {
    TouchedByAnAngelPieces();
    assert "20170802-02-TouchedByAnAngel" == "20170802" + "" + "-" + "02" + "-" + "TouchedByAnAngel";
  }

  lemma TouchedByAnAngelPieces()
    ensures AllDigits("20170802") && AllDigits("02") && IsLineRest("TouchedByAnAngel")
  {
  }

  /** The stems used as examples of the naming schemes. */
  lemma ViolinLayeringExamples()
    ensures FromFileStem("v01-tranquil") == FilenameInfo(ViolinLayering, 1, "tranquil", Placeholder)
    ensures FromFileStem("v05L-wild_west") == FilenameInfo(ViolinLayering, 5, "wild_west", Placeholder)
  {
    PaddedIndexExamples();
    TranquilShape();
    WildWestShape();
    ViolinLayeringStem("v01-tranquil", ViolinCaptures("01", "", "tranquil"), 0);
    ViolinLayeringStem("v05L-wild_west", ViolinCaptures("05", "L", "wild_west"), 0);
  }

  lemma MuseScoreExample()
    ensures FromFileStem("20170802-02-TouchedByAnAngel") == FilenameInfo(MuseScore, 2, "TouchedByAnAngel", Placeholder)
  {
    PaddedIndexExamples();
    TouchedByAnAngelShape();
    MuseScoreStem("20170802-02-TouchedByAnAngel", MuseCaptures("20170802", "", "02", "TouchedByAnAngel"), 0);
  }

  /** Stems of neither shape keep the whole stem as their name; "v01" lacks the "-title" part. */
  lemma UnknownExamples()
    ensures FromFileStem("randomfile") == FilenameInfo(UnknownType, 0, "randomfile", Placeholder)
    ensures FromFileStem("v01") == FilenameInfo(UnknownType, 0, "v01", Placeholder)
  {
    assert LeadingDigits("01") == 2;
  }

  /** Rust's `Path::file_name` on a '/'-separated path: the last component that
      is neither empty nor ".", and nothing when that component is "..". */
  function FileName(path: string): (r: Option<string>)
    ensures r.Some? ==> r.value !in {"", ".", ".."} && '/' !in r.value
    ensures '/' !in path ==> r == if path in {"", ".", ".."} then None else Some(path)
  {
    LastNormalComponent(Split(path, '/'))
  }

  /** The pieces after position `k` are all empty or ".", which `Path` skips. */
  predicate OnlyCurDirAfter(parts: seq<string>, k: int)
  {
    forall j :: 0 <= j < |parts| && k < j ==> parts[j] == "" || parts[j] == "."
  }

  /** The last piece that is neither empty nor "."; nothing when there is no
      such piece or when it is "..". */
  function LastNormalComponent(parts: seq<string>): (r: Option<string>)
    ensures r.Some? ==> r.value !in {"", ".", ".."}
    ensures r.Some? ==> exists k :: 0 <= k < |parts| && parts[k] == r.value && OnlyCurDirAfter(parts, k)
    ensures r.None? ==> OnlyCurDirAfter(parts, -1)
                        || exists k :: 0 <= k < |parts| && parts[k] == ".." && OnlyCurDirAfter(parts, k)
  {
    if parts == [] then None
    else
      var last := parts[|parts| - 1];
      if last == "" || last == "." then
        var r := LastNormalComponent(parts[..|parts| - 1]);
        assert forall k :: -1 <= k < |parts| - 1 && OnlyCurDirAfter(parts[..|parts| - 1], k) ==> OnlyCurDirAfter(parts, k);
        r
      else if last == ".." then
        assert OnlyCurDirAfter(parts, |parts| - 1);
        None
      else
        assert OnlyCurDirAfter(parts, |parts| - 1);
        Some(last)
  }

  /** A path ending in '/' and a plain name has that name as its final component. */
  lemma FileNameAfterSlash(dir: string, name: string)
    requires '/' !in name && name !in {"", ".", ".."}
    ensures FileName(dir + "/" + name) == Some(name)
  {
    SplitAppend(dir, '/', name);
    var parts := Split(dir + "/" + name, '/');
    assert parts[|parts| - 1] == name;
  }

  /** The directories before a file's name do not change what it decomposes into. */
  lemma NewWithInDirectory(dir: string, name: string, fallbackIndex: int)
    requires '/' !in name && name !in {"", ".", ".."}
    ensures NewWith(dir + "/" + name, fallbackIndex) == NewWith(name, fallbackIndex)
  {
    FileNameAfterSlash(dir, name);
  }

  /** The split at the last '.' behind `Path::file_stem` and `Path::extension`:
      there is no extension when the name has no '.', when its only '.' is
      the first character, or when it is "..". */
  function StemAndExtension(name: string): (r: (string, Option<string>))
    ensures r.1.None? ==> r.0 == name
    ensures r.1.Some? ==> r.0 != [] && '.' !in r.1.value && name == r.0 + "." + r.1.value
  {
    if name == ".." then (name, None)
    else
      match LastIndexOf(name, '.')
      case None => (name, None)
      case Some(k) =>
        if k == 0 then (name, None)
        else
          assert name == name[..k] + "." + name[k + 1..];
          (name[..k], Some(name[k + 1..]))
  }

  /** `FilenameInfoComponents::new`, with the fallback index as a parameter.
      The program unwraps the file stem, the extension and the parsed
      extension; each failed unwrap is a panic here. */
  function NewWith(filename: string, fallbackIndex: int): (r: Result<FilenameInfo>)
    ensures !r.Err?
    ensures r.Panicked? ==> r.cause != NoParentSegment
    ensures r.Ok? ==> r.value.extn != Placeholder
    ensures r.Ok? ==> FileName(filename).Some? && EndsWith(FileName(filename).value, "." + ExtensionName(r.value.extn))
  {
    match FileName(filename)
    case None => Panicked(NoFileName)
    case Some(name) =>
      var (stem, extension) := StemAndExtension(name);
      var info := FromFileStemWith(stem, fallbackIndex);
      match extension
      case None => Panicked(NoExtension)
      case Some(e) =>
        match ParseExtension(e)
        case Ok(x) =>
          assert name == stem + ("." + e);
          Ok(info.(extn := x))
        case _ => Panicked(UnknownExtension(e))
  }

  /** A bare stem followed by a recognised extension decomposes into the stem's
      information with that extension. */
  lemma NewWithKnownExtension(stem: string, e: TrackExtension, fallbackIndex: int)
    requires stem != [] && '/' !in stem && e != Placeholder
    ensures NewWith(stem + "." + ExtensionName(e), fallbackIndex) == Ok(FromFileStemWith(stem, fallbackIndex).(extn := e))
  {
    var name := stem + "." + ExtensionName(e);
    assert '/' !in name;
    assert name[|name| - 1] != '.';
    assert FileName(name) == Some(name);
    ExtensionAfterLastDot(stem, ExtensionName(e));
    ParseExtensionName(e);
    NewWithParts(name, stem, ExtensionName(e), fallbackIndex);
  }

  /** Construction from a name that is its own final component and splits
      into a stem and an extension. */
  lemma NewWithParts(name: string, stem: string, extn: string, fallbackIndex: int)
    requires FileName(name) == Some(name)
    requires StemAndExtension(name) == (stem, Some(extn))
    ensures NewWith(name, fallbackIndex) == match ParseExtension(extn)
                                           case Ok(x) => Ok(FromFileStemWith(stem, fallbackIndex).(extn := x))
                                           case _ => Panicked(UnknownExtension(extn))
  {
  }

  /** Any other text after the last dot is a panic. */
  lemma NewWithUnknownExtension(stem: string, extn: string, fallbackIndex: int)
    requires stem != [] && '/' !in stem && '/' !in extn && '.' !in extn
    requires stem + "." + extn != ".."  // that name has no final component at all
    requires extn !in {"mp3", "flac", "ogg", "m4a", "mp4"}
    ensures NewWith(stem + "." + extn, fallbackIndex) == Panicked(UnknownExtension(extn))
  {
    assert '/' !in stem + "." + extn;
    ExtensionAfterLastDot(stem, extn);
  }

  /** A name without any '.' has no extension, which is a panic. */
  lemma NewWithoutExtension(name: string, fallbackIndex: int)
    requires name != [] && '/' !in name && '.' !in name
    ensures NewWith(name, fallbackIndex) == Panicked(NoExtension)
  {
    assert name != "." && name != "..";
  }

  lemma ExtensionAfterLastDot(stem: string, extn: string)
    requires stem != [] && '.' !in extn && stem + "." + extn != ".."
    ensures StemAndExtension(stem + "." + extn) == (stem, Some(extn))
  {
    var name := stem + "." + extn;
    assert name[|stem|] == '.';
    assert name[|stem| + 1..] == extn;
    var k := LastIndexOf(name, '.').value;
    assert k == |stem|;
    assert name[..k] == stem;
  }

  /** Construction from a file name fails or succeeds the same way whatever
      the fallback index, and the results differ in nothing but that index. */
  lemma NewFallbackOnlyForUnknown(filename: string, a: int, b: int)
    ensures NewWith(filename, a).Ok? <==> NewWith(filename, b).Ok?
    ensures !NewWith(filename, a).Ok? ==> NewWith(filename, a) == NewWith(filename, b)
    ensures NewWith(filename, a).Ok? && NewWith(filename, a).value.trackType != UnknownType ==> NewWith(filename, a) == NewWith(filename, b)
    ensures NewWith(filename, a).Ok? && NewWith(filename, a).value.trackType == UnknownType ==>
              NewWith(filename, a).value == NewWith(filename, b).value.(index := a)
  {
    match FileName(filename)
    case None =>
    case Some(name) =>
      FallbackOnlyForUnknown(StemAndExtension(name).0, a, b);
  }

  /** `FilenameInfoComponents::new` of `src/track_name_info.rs`. */
  function New(filename: string): (r: Result<FilenameInfo>)
    ensures !r.Err?
    ensures r.Ok? ==> r.value.extn != Placeholder && r.value.index >= 0
  {
    NewWith(filename, 0)
  }

  /** The `Debug` text of a `FilenameInfoComponents`: the type's short name in
      brackets, the index, the quoted name and the extension's variant name. */
  function DebugText(info: FilenameInfo): (r: string)
    ensures StartsWith(r, "[" + Shortname(info.trackType) + "]  idx=")
    ensures EndsWith(r, "', ext=" + ExtensionName(info.extn))
  {
    var head := "[" + Shortname(info.trackType) + "]  idx=";
    var tail := "', ext=" + ExtensionName(info.extn);
    var r := head + (IntegerText(info.index) + ", n='" + info.name) + tail;
    assert r[..|head|] == head;
    assert r[|r| - |tail|..] == tail;
    r
  }

  /** The bracketed short name tells the track type back from the debug text. */
  lemma DebugTextShowsType(a: FilenameInfo, b: FilenameInfo)
    requires a.trackType != b.trackType
    ensures DebugText(a) != DebugText(b)
  {
    var ta, tb := DebugText(a), DebugText(b);
    var sa, sb := Shortname(a.trackType), Shortname(b.trackType);
    var ha, hb := "[" + sa + "]  idx=", "[" + sb + "]  idx=";
    assert ta[..|ha|] == ha && tb[..|hb|] == hb;
    assert ta[1] == sa[0] && tb[1] == sb[0];
    assert ta[2] == (if |sa| == 2 then sa[1] else ']');
    assert tb[2] == (if |sb| == 2 then sb[1] else ']');
  }
}
