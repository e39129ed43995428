/** Building a playlist from the element tree of an XSPF file (`src/xspf_parser.rs`).

    The element tree is given as a value: reading the file and parsing the XML
    into that tree are outside the model. An element has a name, the text it
    directly contains and its child elements, in document order.
 */
module XspfParser {
  import opened Outcomes
  import opened Text
  import opened Durations
  import TN = TrackNames

  /** `FilenameInfoComponents::from_file_stem` of this file: the same recogniser,
      but a stem of neither shape gets index 1 instead of 0. */
  function FromFileStem(stem: string): (r: TN.FilenameInfo)
    ensures r.trackType != TN.UnknownType ==> r == TN.FromFileStem(stem)
    ensures r.trackType == TN.UnknownType ==> r == TN.FromFileStem(stem).(index := 1)
  {
    TN.FallbackOnlyForUnknown(stem, 1, 0);
    TN.FromFileStemWith(stem, 1)
  }

  /** `FilenameInfoComponents::new` of this file: it fails exactly where the
      other copy fails, and differs from it only in the fallback index. */
  function New(filename: string): (r: Result<TN.FilenameInfo>)
    ensures !r.Ok? ==> r == TN.New(filename)
    ensures r.Ok? <==> TN.New(filename).Ok?
    ensures r.Ok? && r.value.trackType != TN.UnknownType ==> r == TN.New(filename)
    ensures r.Ok? && r.value.trackType == TN.UnknownType ==> r.value == TN.New(filename).value.(index := 1)
  {
    TN.NewFallbackOnlyForUnknown(filename, 1, 0);
    TN.NewWith(filename, 1)
  }

  /** An XML element: its name, its own text, its child elements. */
  datatype Element = Element(name: string, text: string, children: seq<Element>)

  /** The first child with the given name, as `children().find(…)`. */
  function FindChild(children: seq<Element>, name: string): (r: Option<Element>)
    ensures r.None? <==> forall i :: 0 <= i < |children| ==> children[i].name != name
    ensures r.Some? ==> r.value in children && r.value.name == name
  {
    if children == [] then None
    else if children[0].name == name then Some(children[0])
    else
      assert forall i :: 0 < i < |children| ==> children[i] == children[1..][i - 1];
      FindChild(children[1..], name)
  }

  /** The child found is the first one with that name. */
  lemma {:induction false} FindChildFirst(children: seq<Element>, name: string, i: nat)
    requires i < |children| && children[i].name == name
    requires forall j :: 0 <= j < i ==> children[j].name != name
    ensures FindChild(children, name) == Some(children[i])
  {
    if i > 0 {
      FindChildFirst(children[1..], name, i - 1);
    }
  }

  /** A track of the playlist. */
  datatype Track = Track(path: string, filename: string, date: string, duration: Option<TrackDuration>, info: TN.FilenameInfo)

  /** `Track::from_filepath`: the file name is the last '/'-piece of the path and
      the date the piece before it. A path without any '/' has no piece for the
      date, and the second `pop().unwrap()` panics; the file name's own panics
      propagate. The duration is left unknown. */
  function FromFilepath(path: string): (r: Result<Track>)
    ensures !r.Err?
    ensures r == Panicked(NoParentSegment) <==> '/' !in path
    ensures r.Ok? ==> && r.value.path == path && r.value.duration.None?
                      && '/' !in r.value.filename && '/' !in r.value.date
                      && EndsWith(path, r.value.date + "/" + r.value.filename)
                      && r.value.info.extn != TN.Placeholder
  {
    var parts := Split(path, '/');
    if |parts| < 2 then Panicked(NoParentSegment)
    else
      var filename := parts[|parts| - 1];
      var date := parts[|parts| - 2];
      var info := New(filename);
      if info.Ok? then
        SplitLastTwo(path, '/');
        Ok(Track(path, filename, date, None, info.value))
      else
        Panicked(info.cause)
  }

  /** A path that ends in "date/filename" (after nothing, or after a directory
      ending in '/') is split into exactly that date and file name. */
  lemma FromFilepathParts(dir: string, date: string, filename: string)
    requires '/' !in date && '/' !in filename
    requires dir == [] || dir[|dir| - 1] == '/'
    ensures var path := dir + date + "/" + filename;
            && (New(filename).Ok? ==> FromFilepath(path) == Ok(Track(path, filename, date, None, New(filename).value)))
            && (!New(filename).Ok? ==> FromFilepath(path) == Panicked(New(filename).cause))
  {
    SplitEndsWithPieces(dir, '/', date, filename);
  }

  const FILE_URI_PREFIX: string := "file:///"
  const UNSUPPORTED_URI: string := "Unsupported URI - Must start with 'file:///'"
  const NO_LOCATION: string := "Element skipped as no location info found"

  /** `Track::from_uri`: only "file:///" URIs are accepted, and what follows
      the prefix is taken as the path, without any percent-decoding. */
  function FromUri(uri: string): (r: Result<Track>)
    ensures r.Err? <==> !StartsWith(uri, FILE_URI_PREFIX)
    ensures r.Err? ==> r.message == UNSUPPORTED_URI
    ensures r.Ok? ==> FILE_URI_PREFIX + r.value.path == uri
  {
    if StartsWith(uri, FILE_URI_PREFIX) then
      assert uri == FILE_URI_PREFIX + uri[|FILE_URI_PREFIX|..];
      FromFilepath(uri[|FILE_URI_PREFIX|..])
    else Err(UNSUPPORTED_URI)
  }

  /** Stripping the prefix gives back the path it was put in front of. */
  lemma FromUriOfPath(path: string)
    ensures FromUri(FILE_URI_PREFIX + path) == FromFilepath(path)
  {
    assert (FILE_URI_PREFIX + path)[..|FILE_URI_PREFIX|] == FILE_URI_PREFIX;
    assert (FILE_URI_PREFIX + path)[|FILE_URI_PREFIX|..] == path;
  }

  /** The duration a track element declares: the text of its first "duration"
      child parsed as an `i64`; anything unparsable leaves it unknown. */
  function DurationOf(children: seq<Element>): (r: Option<TrackDuration>)
    ensures r.None? <==> FindChild(children, "duration").None?
                         || ParseInteger(FindChild(children, "duration").value.text, I64_MIN, I64_MAX).None?
    ensures r.Some? ==> ParseInteger(FindChild(children, "duration").value.text, I64_MIN, I64_MAX) == Some(r.value.ms)
  {
    match FindChild(children, "duration")
    case None => None
    case Some(d) =>
      match ParseInteger(d.text, I64_MIN, I64_MAX)
      case None => None
      case Some(ms) => Some(TrackDuration(ms))
  }

  /** `Track::from_xml_elem`: the track at the first "location" child's URI,
      with the duration of the first "duration" child when that parses. */
  function FromXmlElem(e: Element): (r: Result<Track>)
    ensures r.Err? ==> r.message == NO_LOCATION || r.message == UNSUPPORTED_URI
  {
    match FindChild(e.children, "location")
    case None => Err(NO_LOCATION)
    case Some(location) =>
      match FromUri(location.text)
      case Ok(t) => Ok(t.(duration := DurationOf(e.children)))
      case Err(m) => Err(m)
      case Panicked(c) => Panicked(c)
  }

  /** An element is skipped with an error exactly when it has no "location"
      child or that child's text is not a file URI; otherwise it panics as
      the path does, or is the path's track with the declared duration. */
  lemma FromXmlElemOutcome(e: Element)
    ensures var r := FromXmlElem(e);
            var location := FindChild(e.children, "location");
            && (r.Err? <==> location.None? || !StartsWith(location.value.text, FILE_URI_PREFIX))
            && (r.Err? ==> r.message in {NO_LOCATION, UNSUPPORTED_URI})
            && (r.Err? && r.message == NO_LOCATION <==> location.None?)
            && (r.Panicked? <==> location.Some? && FromUri(location.value.text).Panicked?)
            && (r.Panicked? ==> r == Panicked(FromUri(location.value.text).cause))
            && (r.Ok? ==> location.Some? && FromUri(location.value.text).Ok?
                          && r.value == FromUri(location.value.text).value.(duration := DurationOf(e.children)))
            && (r.Ok? ==> r.value.duration == DurationOf(e.children) && FILE_URI_PREFIX + r.value.path == location.value.text)
  {
  }

  /** A track element whose file URI holds a path without any '/' panics, and
      with it the whole playlist: the path has no parent segment for a date. */
  lemma FromXmlElemNoDirectory(e: Element, path: string)
    requires FindChild(e.children, "location").Some?
    requires FindChild(e.children, "location").value.text == FILE_URI_PREFIX + path
    requires '/' !in path
    ensures FromXmlElem(e) == Panicked(NoParentSegment)
  {
    FromUriOfPath(path);
    FromXmlElemOutcome(e);
  }

  /** A duration rendered as an integer reads back as that duration. */
  lemma DurationOfText(children: seq<Element>, ms: I64)
    requires FindChild(children, "duration").Some?
    requires FindChild(children, "duration").value.text == IntegerText(ms)
    ensures DurationOf(children) == Some(TrackDuration(ms))
  {
    ParseIntegerText(ms, I64_MIN, I64_MAX);
  }

  /** A track element whose location is a file URI and whose duration is a
      rendered millisecond count gives the track at that path with that duration. */
  lemma FromXmlElemDuration(e: Element, path: string, ms: I64)
    requires FindChild(e.children, "location").Some?
    requires FindChild(e.children, "location").value.text == FILE_URI_PREFIX + path
    requires FindChild(e.children, "duration").Some?
    requires FindChild(e.children, "duration").value.text == IntegerText(ms)
    requires FromFilepath(path).Ok?
    ensures FromXmlElem(e) == Ok(FromFilepath(path).value.(duration := Some(TrackDuration(ms))))
  {
    DurationOfText(e.children, ms);
    FromUriOfPath(path);
  }

  datatype XspfPlaylist = XspfPlaylist(tracks: seq<Track>, title: Option<string>)

  /** The children of the "trackList" sections, in document order. */
  function TrackElements(sections: seq<Element>): (r: seq<Element>)
  {
    if sections == [] then []
    else
      var last := sections[|sections| - 1];
      TrackElements(sections[..|sections| - 1]) + (if last.name == "trackList" then last.children else [])
  }

  /** The outcome of building a track from each element. */
  function TrackOutcomes(elems: seq<Element>): (r: seq<Result<Track>>)
  {
    seq(|elems|, i requires 0 <= i < |elems| => FromXmlElem(elems[i]))
  }

  /** The tracks kept from a run of outcomes: the successful ones, in order. */
  function Kept(rs: seq<Result<Track>>): (r: seq<Track>)
    ensures |r| <= |rs|
  {
    if rs == [] then []
    else Kept(rs[..|rs| - 1]) + (if rs[|rs| - 1].Ok? then [rs[|rs| - 1].value] else [])
  }

  /** The cause of the first panic in a run of outcomes, if any. */
  function FirstPanic(rs: seq<Result<Track>>): (r: Option<PanicCause>)
  {
    if rs == [] then None
    else
      var p := FirstPanic(rs[..|rs| - 1]);
      if p.Some? then p else if rs[|rs| - 1].Panicked? then Some(rs[|rs| - 1].cause) else None
  }

  /** The title: the text of the last "title" section, then " - " and the file name. */
  function PlaylistTitle(sections: seq<Element>, filename: string): (r: Option<string>)
    ensures r.Some? ==> EndsWith(r.value, " - " + filename)
  {
    if sections == [] then None
    else
      var last := sections[|sections| - 1];
      if last.name == "title" then
        var t := last.text + " - " + filename;
        assert t[|last.text|..] == " - " + filename;
        Some(t)
      else PlaylistTitle(sections[..|sections| - 1], filename)
  }

  /** What `XspfPlaylist::from_xml_tree` yields: a panic when some track element
      panics, otherwise the kept tracks and the title. */
  function PlaylistOf(root: Element, filename: string): (r: Result<XspfPlaylist>)
    ensures !r.Err?
    ensures r.Ok? ==> |r.value.tracks| <= |TrackElements(root.children)|
    ensures r.Ok? && r.value.title.Some? ==> EndsWith(r.value.title.value, " - " + filename)
  {
    var rs := TrackOutcomes(TrackElements(root.children));
    match FirstPanic(rs)
    case Some(c) => Panicked(c)
    case None => Ok(XspfPlaylist(Kept(rs), PlaylistTitle(root.children, filename)))
  }

  /** `XspfPlaylist::from_xml_tree`: one pass over the root's sections; a
      "title" section sets the title, a "trackList" section appends every
      track element that yields a track, and other sections are ignored. */
  method FromXmlTree(root: Element, filename: string) returns (r: Result<XspfPlaylist>)
    ensures r == PlaylistOf(root, filename)
  {
    var sections := root.children;
    var tracklist: seq<Track> := [];
    var title: Option<string> := None;
    ghost var soFar: seq<Result<Track>> := [];
    var i := 0;
    while i < |sections|
      invariant 0 <= i <= |sections|
      invariant soFar == TrackOutcomes(TrackElements(sections[..i]))
      invariant FirstPanic(soFar).None? && tracklist == Kept(soFar)
      invariant title == PlaylistTitle(sections[..i], filename)
    {
      var section := sections[i];
      SectionStep(sections, i, filename);
      if section.name == "title" {
        title := Some(section.text + " - " + filename);
        assert soFar + [] == soFar;
      } else if section.name == "trackList" {
        ghost var outcomes := TrackOutcomes(section.children);
        var panic;
        panic, tracklist := CollectTracks(section.children, tracklist);
        FirstPanicAppend(soFar, outcomes);
        if panic.Some? {
          PanicStops(sections, i, panic.value);
          return Panicked(panic.value);
        }
        KeptAppend(soFar, outcomes);
        soFar := soFar + outcomes;
      } else {
        assert soFar + [] == soFar;
      }
      i := i + 1;
    }
    assert sections[..i] == sections;
    r := Ok(XspfPlaylist(tracklist, title));
  }

  /** The inner loop of `from_xml_tree` over one "trackList" section: each
      element's track is appended to `tracklist` when it is built, skipped on
      an error, and the first panic ends the whole pass. */
  method CollectTracks(tracks: seq<Element>, tracklist: seq<Track>) returns (panic: Option<PanicCause>, kept: seq<Track>)
    ensures panic == FirstPanic(TrackOutcomes(tracks))
    ensures panic.None? ==> kept == tracklist + Kept(TrackOutcomes(tracks))
  {
    ghost var outcomes := TrackOutcomes(tracks);
    kept := tracklist;
    var j := 0;
    while j < |tracks|
      invariant 0 <= j <= |tracks|
      invariant FirstPanic(outcomes[..j]).None?
      invariant kept == tracklist + Kept(outcomes[..j])
    {
      var t := FromXmlElem(tracks[j]);
      NextOutcome(tracks, j);
      OutcomeStep(outcomes[..j], t);
      if t.Panicked? {
        PanicInSection(outcomes, j);
        return Some(t.cause), kept;
      }
      if t.Ok? {
        kept := kept + [t.value];
      }
      j := j + 1;
    }
    assert outcomes[..j] == outcomes;
    return None, kept;
  }

  /** One more outcome: a panic becomes the first panic unless there was one,
      and a track is kept after the ones kept so far. */
  lemma OutcomeStep(rs: seq<Result<Track>>, t: Result<Track>)
    ensures FirstPanic(rs + [t]) == if FirstPanic(rs).Some? then FirstPanic(rs) else if t.Panicked? then Some(t.cause) else None
    ensures Kept(rs + [t]) == Kept(rs) + if t.Ok? then [t.value] else []
  {
    assert (rs + [t])[..|rs|] == rs;
  }

  lemma NextOutcome(tracks: seq<Element>, j: nat)
    requires j < |tracks|
    ensures TrackOutcomes(tracks)[..j + 1] == TrackOutcomes(tracks)[..j] + [FromXmlElem(tracks[j])]
  {
  }

  /** One more section adds its track elements' outcomes and, if it is a title, sets the title. */
  lemma SectionStep(sections: seq<Element>, i: nat, filename: string)
    requires i < |sections|
    ensures TrackOutcomes(TrackElements(sections[..i + 1])) ==
              TrackOutcomes(TrackElements(sections[..i])) + (if sections[i].name == "trackList" then TrackOutcomes(sections[i].children) else [])
    ensures PlaylistTitle(sections[..i + 1], filename) ==
              if sections[i].name == "title" then Some(sections[i].text + " - " + filename) else PlaylistTitle(sections[..i], filename)
  {
    assert sections[..i + 1][..i] == sections[..i];
    TrackOutcomesAppend(TrackElements(sections[..i]), if sections[i].name == "trackList" then sections[i].children else []);
  }

  lemma TrackOutcomesAppend(a: seq<Element>, b: seq<Element>)
    ensures TrackOutcomes(a + b) == TrackOutcomes(a) + TrackOutcomes(b)
  {
    var whole := TrackOutcomes(a + b);
    var parts := TrackOutcomes(a) + TrackOutcomes(b);
    forall i | 0 <= i < |whole|
      ensures whole[i] == parts[i]
    {
      if i < |a| {
        assert (a + b)[i] == a[i];
      } else {
        assert (a + b)[i] == b[i - |a|];
      }
    }
  }

  /** A panic at position `j` of a section's outcomes, with none before it, is
      the first panic once the whole section is taken. */
  lemma PanicInSection(outcomes: seq<Result<Track>>, j: nat)
    requires j < |outcomes| && outcomes[j].Panicked?
    requires FirstPanic(outcomes[..j]).None?
    ensures FirstPanic(outcomes) == Some(outcomes[j].cause)
  {
    var upto := outcomes[..j] + [outcomes[j]];
    var rest := outcomes[j + 1..];
    OutcomeStep(outcomes[..j], outcomes[j]);
    assert outcomes == upto + rest;
    FirstPanicAppend(upto, rest);
  }

  /** The first panic among the sections up to `i` is the first panic of all of them. */
  lemma PanicStops(sections: seq<Element>, i: nat, cause: PanicCause)
    requires i < |sections|
    requires FirstPanic(TrackOutcomes(TrackElements(sections[..i + 1]))) == Some(cause)
    ensures FirstPanic(TrackOutcomes(TrackElements(sections))) == Some(cause)
  {
    SectionsSplit(sections, i + 1);
    FirstPanicAppend(TrackOutcomes(TrackElements(sections[..i + 1])), TrackOutcomes(TrackElements(sections[i + 1..])));
  }

  lemma SectionsSplit(sections: seq<Element>, k: nat)
    requires k <= |sections|
    ensures TrackOutcomes(TrackElements(sections)) ==
              TrackOutcomes(TrackElements(sections[..k])) + TrackOutcomes(TrackElements(sections[k..]))
  {
    TrackElementsSplit(sections, k);
    TrackOutcomesAppend(TrackElements(sections[..k]), TrackElements(sections[k..]));
  }

  lemma TrackElementsSplit(sections: seq<Element>, k: nat)
    requires k <= |sections|
    ensures TrackElements(sections) == TrackElements(sections[..k]) + TrackElements(sections[k..])
  {
    assert sections == sections[..k] + sections[k..];
    TrackElementsAppend(sections[..k], sections[k..]);
  }

  lemma {:induction false} TrackElementsAppend(a: seq<Element>, b: seq<Element>)
    ensures TrackElements(a + b) == TrackElements(a) + TrackElements(b)
    decreases |b|
  {
    if b == [] {
      assert a + b == a;
    } else {
      var ab := a + b;
      assert ab[..|ab| - 1] == a + b[..|b| - 1];
      TrackElementsAppend(a, b[..|b| - 1]);
    }
  }

  lemma {:induction false} FirstPanicAppend(a: seq<Result<Track>>, b: seq<Result<Track>>)
    ensures FirstPanic(a + b) == if FirstPanic(a).Some? then FirstPanic(a) else FirstPanic(b)
    decreases |b|
  {
    if b == [] {
      assert a + b == a;
    } else {
      var ab := a + b;
      assert ab[..|ab| - 1] == a + b[..|b| - 1];
      FirstPanicAppend(a, b[..|b| - 1]);
    }
  }

  lemma {:induction false} KeptAppend(a: seq<Result<Track>>, b: seq<Result<Track>>)
    ensures Kept(a + b) == Kept(a) + Kept(b)
    decreases |b|
  {
    if b == [] {
      assert a + b == a;
    } else {
      var ab := a + b;
      assert ab[..|ab| - 1] == a + b[..|b| - 1];
      KeptAppend(a, b[..|b| - 1]);
    }
  }

  /** A track is kept exactly when some outcome produced it. */
  lemma {:induction false} KeptMembers(rs: seq<Result<Track>>, t: Track)
    ensures t in Kept(rs) <==> Ok(t) in rs
  {
    if rs != [] {
      var front := rs[..|rs| - 1];
      assert rs == front + [rs[|rs| - 1]];
      KeptMembers(front, t);
    }
  }

  /** When every outcome is a track, all of them are kept, in order. */
  lemma {:induction false} KeptAll(rs: seq<Result<Track>>)
    requires forall i :: 0 <= i < |rs| ==> rs[i].Ok?
    ensures |Kept(rs)| == |rs|
    ensures forall i :: 0 <= i < |rs| ==> Kept(rs)[i] == rs[i].value
  {
    if rs != [] {
      KeptAll(rs[..|rs| - 1]);
    }
  }

  /** `FirstPanic` finds nothing exactly when no outcome is a panic, and
      otherwise the cause of a panic with none before it. */
  lemma {:induction false} FirstPanicIsFirst(rs: seq<Result<Track>>)
    ensures FirstPanic(rs).None? <==> forall i :: 0 <= i < |rs| ==> !rs[i].Panicked?
    ensures FirstPanic(rs).Some? ==> exists i :: 0 <= i < |rs| && rs[i] == Panicked(FirstPanic(rs).value)
                                                && forall j :: 0 <= j < i ==> !rs[j].Panicked?
  {
    if rs != [] {
      var front, last := rs[..|rs| - 1], rs[|rs| - 1];
      FirstPanicIsFirst(front);
      assert forall j :: 0 <= j < |front| ==> rs[j] == front[j];
      if FirstPanic(front).Some? {
        var i :| 0 <= i < |front| && front[i] == Panicked(FirstPanic(front).value)
                 && forall j :: 0 <= j < i ==> !front[j].Panicked?;
        assert rs[i] == front[i];
      } else if last.Panicked? {
        assert rs[|rs| - 1] == Panicked(FirstPanic(rs).value);
      } else {
        assert FirstPanic(rs).None?;
      }
    }
  }

  /** The title is absent exactly when no section is a "title" section, and
      otherwise comes from the last one. */
  lemma {:induction false} PlaylistTitleIsLast(sections: seq<Element>, filename: string)
    ensures PlaylistTitle(sections, filename).None? <==> forall i :: 0 <= i < |sections| ==> sections[i].name != "title"
    ensures PlaylistTitle(sections, filename).Some? ==>
              exists i :: 0 <= i < |sections| && sections[i].name == "title"
                          && PlaylistTitle(sections, filename) == Some(sections[i].text + " - " + filename)
                          && forall j :: i < j < |sections| ==> sections[j].name != "title"
  {
    if sections != [] {
      var front := sections[..|sections| - 1];
      PlaylistTitleIsLast(front, filename);
      if sections[|sections| - 1].name != "title" && PlaylistTitle(front, filename).Some? {
        var i :| 0 <= i < |front| && front[i].name == "title"
                 && PlaylistTitle(front, filename) == Some(front[i].text + " - " + filename)
                 && forall j :: i < j < |front| ==> front[j].name != "title";
        assert sections[i] == front[i];
      }
    }
  }

  /** A track element comes from some "trackList" section, and every child of
      every such section is one. */
  lemma {:induction false} TrackElementsMembers(sections: seq<Element>, e: Element)
    ensures e in TrackElements(sections) <==>
              exists i :: 0 <= i < |sections| && sections[i].name == "trackList" && e in sections[i].children
  {
    if sections != [] {
      var front := sections[..|sections| - 1];
      TrackElementsMembers(front, e);
      assert forall i :: 0 <= i < |front| ==> sections[i] == front[i];
    }
  }

  lemma {:induction false} PlaylistTitleAppend(a: seq<Element>, b: seq<Element>, filename: string)
    ensures PlaylistTitle(a + b, filename) == if PlaylistTitle(b, filename).Some? then PlaylistTitle(b, filename) else PlaylistTitle(a, filename)
    decreases |b|
  {
    if b == [] {
      assert a + b == a;
    } else {
      var ab := a + b;
      assert ab[..|ab| - 1] == a + b[..|b| - 1];
      PlaylistTitleAppend(a, b[..|b| - 1], filename);
    }
  }

  /** A section that is neither "title" nor "trackList" changes nothing, wherever it stands. */
  lemma OtherSectionIgnored(root: Element, before: seq<Element>, other: Element, after: seq<Element>, filename: string)
    requires other.name != "title" && other.name != "trackList"
    ensures PlaylistOf(root.(children := before + [other] + after), filename) == PlaylistOf(root.(children := before + after), filename)
  {
    var with := before + [other] + after;
    var without := before + after;
    assert [other][..0] == [];
    assert TrackElements([other]) == [];
    assert PlaylistTitle([other], filename).None?;
    TrackElementsAppend(before + [other], after);
    TrackElementsAppend(before, [other]);
    TrackElementsAppend(before, after);
    assert TrackElements(with) == TrackElements(without);
    PlaylistTitleAppend(before + [other], after, filename);
    PlaylistTitleAppend(before, [other], filename);
    PlaylistTitleAppend(before, after, filename);
    assert PlaylistTitle(with, filename) == PlaylistTitle(without, filename);
  }

  /** `XspfPlaylist::len`. */
  function Len(p: XspfPlaylist): (r: nat)
    ensures r == 0 <==> p.tracks == []
  {
    |p.tracks|
  }

  /** A playlist has at most as many tracks as its "trackList" sections have
      elements, and every one of its tracks comes from one of those elements. */
  lemma LenBound(root: Element, filename: string)
    requires PlaylistOf(root, filename).Ok?
    ensures Len(PlaylistOf(root, filename).value) <= |TrackElements(root.children)|
    ensures forall t :: t in PlaylistOf(root, filename).value.tracks ==> Ok(t) in TrackOutcomes(TrackElements(root.children))
  {
    var rs := TrackOutcomes(TrackElements(root.children));
    forall t | t in PlaylistOf(root, filename).value.tracks
      ensures Ok(t) in rs
    {
      KeptMembers(rs, t);
    }
  }
}
