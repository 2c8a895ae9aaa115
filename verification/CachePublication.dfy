/**
 The cafe cache and its manifest: the writer (`publish_cache` in backend/scripts/cache_kakao_cafes.py) and
 the readers (`read_kakao_cache` in backend/scripts/build_provider_cafe_catalog.py and
 `read_validated_kakao_snapshot` in backend/scripts/seed_kakao_catalog_expansion.py).
 */
module CachePublication {
  import opened Outcomes
  import opened Whitespace

  type Text = string

  // ---------------------------------------------------------------------------------------
  // Lines
  // ---------------------------------------------------------------------------------------

  /** The boundaries that `json.dumps(..., ensure_ascii=False)` leaves in a string as they are. */
  predicate IsUnescapedBreak(c: char) {
    c == '\U{0085}' || c == '\U{2028}' || c == '\U{2029}'
  }

  predicate HasBreak(text: Text) {
    exists i :: 0 <= i < |text| && IsBreak(text[i])
  }

  /** The first boundary, or the end of the text. */
  function FirstBreak(text: Text): (i: nat)
    ensures i <= |text| && (i < |text| ==> IsBreak(text[i]))
    ensures forall j :: 0 <= j < i ==> !IsBreak(text[j])
  {
    if text == [] || IsBreak(text[0]) then 0 else 1 + FirstBreak(text[1..])
  }

  /** Where the next line starts: a carriage return and a newline are one boundary. */
  function NextLine(text: Text, i: nat): (n: nat)
    requires i < |text|
    ensures i < n <= |text|
  {
    if text[i] == '\r' && i + 1 < |text| && text[i + 1] == '\n' then i + 2 else i + 1
  }

  /** `text.splitlines()` */
  function SplitLines(text: Text): seq<Text>
    decreases |text|
  {
    if text == [] then []
    else
      var i := FirstBreak(text);
      if i == |text| then [text] else [text[..i]] + SplitLines(text[NextLine(text, i)..])
  }

  // ---------------------------------------------------------------------------------------
  // Records
  // ---------------------------------------------------------------------------------------

  /** The JSON text of a record, the record a line decodes to, and the digest of a cache text. */
  datatype Codec<!R> = Codec(encode: R -> Text, decode: Text -> Option<R>, digest: Text -> string)

  /**
   What is assumed of JSON objects: they decode to their record, start with a brace, hold no control
   character below U+0020, and no shorter start of one is a record.
   */
  ghost predicate JsonObjects<R(!new)>(codec: Codec<R>) {
    && (forall r: R :: codec.decode(codec.encode(r)) == Some(r))
    && (forall r: R :: codec.encode(r) != [] && codec.encode(r)[0] == '{')
    && (forall r: R, i :: 0 <= i < |codec.encode(r)| ==> codec.encode(r)[i] >= ' ')
    && (forall r: R, i :: 0 <= i < |codec.encode(r)| ==> codec.decode(codec.encode(r)[..i]).None?)
  }

  ghost predicate InjectiveDigest<R(!new)>(codec: Codec<R>) {
    forall a: Text, b: Text :: codec.digest(a) == codec.digest(b) ==> a == b
  }

  function RecordLine<R>(codec: Codec<R>, r: R): Text {
    codec.encode(r) + "\n"
  }

  function CacheText<R>(codec: Codec<R>, records: seq<R>): Text {
    if records == [] then [] else CacheText(codec, records[..|records| - 1]) + RecordLine(codec, records[|records| - 1])
  }

  /** The reader's loop: blank lines are skipped, any other must be a record. */
  function ParseLines<R>(codec: Codec<R>, lines: seq<Text>): Result<seq<R>> {
    if lines == [] then Ok([])
    else
      match ParseLines(codec, lines[..|lines| - 1])
      case Error(message) => Error(message)
      case Ok(records) =>
        var line := lines[|lines| - 1];
        if IsBlank(line) then Ok(records)
        else
          match codec.decode(line)
          case None => Error("invalid Kakao cache line")
          case Some(r) => Ok(records + [r])
  }

  // ---------------------------------------------------------------------------------------
  // What a published text reads as
  // ---------------------------------------------------------------------------------------

  lemma FirstBreakOfAppend(a: Text, b: Text)
    requires FirstBreak(a) < |a|
    ensures FirstBreak(a + b) == FirstBreak(a)
  {
    var i := FirstBreak(a);
    assert (a + b)[i] == a[i];
    forall k | 0 <= k < i
      ensures !IsBreak((a + b)[k])
    {
      assert (a + b)[k] == a[k];
    }
  }

  /** Whole lines can be split on their own. */
  lemma {:induction false} SplitAfterNewline(a: Text, b: Text)
    requires a == [] || a[|a| - 1] == '\n'
    ensures SplitLines(a + b) == SplitLines(a) + SplitLines(b)
    decreases |a|
  {
    hide FirstBreak, SplitLines, NextLine;
    if a == [] {
      assert a + b == b;
      SplitNothing();
    } else {
      var i := FirstBreak(a);
      assert IsBreak(a[|a| - 1]);
      assert i < |a|;
      var n := NextLine(a, i);
      FirstBreakOfAppend(a, b);
      SplitFirst(a, i, n);
      NextLineOfAppend(a, b, i);
      SplitFirst(a + b, i, n);
      assert (a + b)[n..] == a[n..] + b && (a + b)[..i] == a[..i];
      SplitAfterNewline(a[n..], b);
    }
  }

  lemma SplitNothing()
    ensures SplitLines([]) == []
  {
  }

  lemma SplitFirst(text: Text, i: nat, n: nat)
    requires i == FirstBreak(text) < |text| && n == NextLine(text, i)
    ensures SplitLines(text) == [text[..i]] + SplitLines(text[n..])
  {
    hide FirstBreak, NextLine;
  }

  lemma NextLineOfAppend(a: Text, b: Text, i: nat)
    requires i < |a| && a[|a| - 1] == '\n'
    ensures NextLine(a + b, i) == NextLine(a, i)
  {
  }

  lemma {:induction false} ParseInTwo<R>(codec: Codec<R>, a: seq<Text>, b: seq<Text>)
    ensures ParseLines(codec, a).Error? ==> ParseLines(codec, a + b).Error?
    ensures ParseLines(codec, a).Ok? && ParseLines(codec, b).Error? ==> ParseLines(codec, a + b).Error?
    ensures ParseLines(codec, a).Ok? && ParseLines(codec, b).Ok? ==>
              ParseLines(codec, a + b) == Ok(ParseLines(codec, a).value + ParseLines(codec, b).value)
  {
    hide IsBlank;
    if b == [] {
      assert a + b == a;
      if ParseLines(codec, a).Ok? {
        assert ParseLines(codec, a).value + [] == ParseLines(codec, a).value;
      }
    } else {
      var before, line := b[..|b| - 1], b[|b| - 1];
      assert (a + b)[..|a + b| - 1] == a + before && (a + b)[|a + b| - 1] == line;
      ParseInTwo(codec, a, before);
      if ParseLines(codec, a).Ok? && ParseLines(codec, before).Ok? && codec.decode(line).Some? {
        var r := codec.decode(line).value;
        assert ParseLines(codec, a).value + ParseLines(codec, before).value + [r]
               == ParseLines(codec, a).value + (ParseLines(codec, before).value + [r]);
      }
    }
  }

  lemma ParseOneLine<R>(codec: Codec<R>, line: Text)
    requires !IsBlank(line)
    ensures ParseLines(codec, [line])
         == match codec.decode(line) case None => Error("invalid Kakao cache line") case Some(r) => Ok([r])
  {
    hide IsBlank;
    assert [line][..0] == [];
    var none: seq<R> := [];
    assert ParseLines(codec, [line][..0]) == Ok(none);
    match codec.decode(line)
    case None =>
    case Some(r) => assert none + [r] == [r];
  }

  lemma BraceIsNotBlank(line: Text)
    requires line != [] && line[0] == '{'
    ensures !IsBlank(line)
  {
  }

  /** The first line of a record line: the whole text, or a proper start of it. */
  lemma FirstLineOfRecord(text: Text)
    requires text != [] && text[0] == '{'
    ensures var line := text + "\n"; var i := FirstBreak(line);
            && 0 < i <= |text| && (i == |text| <==> !HasBreak(text))
            && SplitLines(line) == [text[..i]] + SplitLines(line[NextLine(line, i)..])
            && (i == |text| ==> SplitLines(line) == [text])
  {
    hide SplitLines;
    var line := text + "\n";
    var i := FirstBreak(line);
    assert line[|text|] == '\n' && IsBreak(line[|text|]);
    assert line[0] == '{' && !IsBreak('{');
    SplitFirst(line, i, NextLine(line, i));
    assert line[..i] == text[..i];
    if HasBreak(text) {
      var j :| 0 <= j < |text| && IsBreak(text[j]);
      assert line[j] == text[j];
    }
    if i < |text| {
      assert line[i] == text[i];
    } else {
      assert line[NextLine(line, i)..] == [] && text[..i] == text;
      SplitNothing();
    }
  }

  /** A record line reads back as its record exactly when its text holds no boundary. */
  lemma RecordLineReads<R(!new)>(codec: Codec<R>, r: R)
    requires JsonObjects(codec)
    ensures !HasBreak(codec.encode(r)) ==> ParseLines(codec, SplitLines(RecordLine(codec, r))) == Ok([r])
    ensures HasBreak(codec.encode(r)) ==> ParseLines(codec, SplitLines(RecordLine(codec, r))).Error?
  {
    hide SplitLines, ParseLines, FirstBreak, NextLine, HasBreak, IsBlank;
    var text := codec.encode(r);
    var line := text + "\n";
    assert codec.decode(text) == Some(r);
    FirstLineOfRecord(text);
    var i := FirstBreak(line);
    BraceIsNotBlank(text[..i]);
    ParseOneLine(codec, text[..i]);
    if i < |text| {
      assert codec.decode(text[..i]).None?;
      ParseInTwo(codec, [text[..i]], SplitLines(line[NextLine(line, i)..]));
    } else {
      assert text[..i] == text;
    }
  }

  predicate Unbroken<R>(codec: Codec<R>, records: seq<R>) {
    forall k :: 0 <= k < |records| ==>
                  forall i :: 0 <= i < |codec.encode(records[k])| ==> !IsUnescapedBreak(codec.encode(records[k])[i])
  }

  lemma BreaksAreUnescaped<R(!new)>(codec: Codec<R>, r: R)
    requires JsonObjects(codec)
    ensures HasBreak(codec.encode(r))
            <==> exists i :: 0 <= i < |codec.encode(r)| && IsUnescapedBreak(codec.encode(r)[i])
  {
    forall i | 0 <= i < |codec.encode(r)|
      ensures IsBreak(codec.encode(r)[i]) <==> IsUnescapedBreak(codec.encode(r)[i])
    {
      assert codec.encode(r)[i] >= ' ';
    }
  }

  lemma CacheTextEndsLine<R>(codec: Codec<R>, records: seq<R>)
    ensures CacheText(codec, records) == [] || CacheText(codec, records)[|CacheText(codec, records)| - 1] == '\n'
  {
  }

  /**
   A cache text reads back as its records exactly when no record text holds one of the three boundaries
   that JSON leaves unescaped; otherwise the reader refuses it.
   */
  lemma {:induction false} CacheReadsBackUnlessBroken<R(!new)>(codec: Codec<R>, records: seq<R>)
    requires JsonObjects(codec)
    ensures var read := ParseLines(codec, SplitLines(CacheText(codec, records)));
            && (read.Ok? <==> Unbroken(codec, records))
            && (read.Ok? ==> read.value == records)
  {
    hide SplitLines, ParseLines, JsonObjects, IsUnescapedBreak;
    if records == [] {
      NothingToRead(codec);
    } else {
      var before, last := records[..|records| - 1], records[|records| - 1];
      CacheReadsBackUnlessBroken(codec, before);
      CacheTextEndsLine(codec, before);
      SplitAfterNewline(CacheText(codec, before), RecordLine(codec, last));
      ParseInTwo(codec, SplitLines(CacheText(codec, before)), SplitLines(RecordLine(codec, last)));
      RecordLineReads(codec, last);
      BreaksAreUnescaped(codec, last);
      assert records == before + [last];
      assert Unbroken(codec, records) <==> Unbroken(codec, before) && Unbroken(codec, [last]);
      assert Unbroken(codec, [last]) <==> !HasBreak(codec.encode(last));
    }
  }

  lemma NothingToRead<R>(codec: Codec<R>)
    ensures ParseLines(codec, SplitLines(CacheText(codec, []))) == Ok([])
  {
  }

  // ---------------------------------------------------------------------------------------
  // Publications
  // ---------------------------------------------------------------------------------------

  const MANIFEST_SCHEMA_VERSION := 1
  const CAFE_CATEGORY_CODE := "CE7"

  datatype Manifest = Manifest(
    complete: bool, schemaVersion: int, categoryGroupCode: string, bboxIsSeoul: bool, unresolvedCount: int,
    recordCount: int, cacheSha256: string, generatedAt: string)

  datatype Version<R> = Version(records: seq<R>, manifest: Manifest)

  /** What `publish_cache` demands before it writes. */
  predicate Publishable<R>(codec: Codec<R>, v: Version<R>) {
    v.manifest.complete && v.manifest.cacheSha256 == codec.digest(CacheText(codec, v.records))
  }

  /** One atomic replacement of a file. */
  datatype Replacement<R> = ReplaceCache(version: Version<R>) | ReplaceManifest(version: Version<R>)

  /** The replacements in the order they happened, of any number of publishers, finished or not. */
  type Log<R> = seq<Replacement<R>>

  /** The version whose cache is in place once the first `t` replacements have happened. */
  function CacheAt<R>(log: Log<R>, t: nat): Option<Version<R>>
    requires t <= |log|
  {
    if t == 0 then None else if log[t - 1].ReplaceCache? then Some(log[t - 1].version) else CacheAt(log, t - 1)
  }

  function ManifestAt<R>(log: Log<R>, t: nat): Option<Version<R>>
    requires t <= |log|
  {
    if t == 0 then None else if log[t - 1].ReplaceManifest? then Some(log[t - 1].version) else ManifestAt(log, t - 1)
  }

  /** The version was published whole before time `t`: its cache first, then its manifest. */
  ghost predicate Published<R>(log: Log<R>, t: nat, v: Version<R>) {
    exists i, j :: 0 <= i < j < t <= |log| && log[i] == ReplaceCache(v) && log[j] == ReplaceManifest(v)
  }

  /** Every publisher replaces its cache before its manifest. */
  ghost predicate CacheFirst<R>(codec: Codec<R>, log: Log<R>) {
    && (forall i :: 0 <= i < |log| ==> Publishable(codec, log[i].version))
    && (forall j :: 0 <= j < |log| && log[j].ReplaceManifest? ==>
                      exists i :: 0 <= i < j && log[i] == ReplaceCache(log[j].version))
  }

  /** `_validate_kakao_manifest` */
  predicate ManifestAccepts<R>(codec: Codec<R>, m: Manifest, text: Text, recordCount: nat) {
    && m.complete && m.schemaVersion == MANIFEST_SCHEMA_VERSION && m.categoryGroupCode == CAFE_CATEGORY_CODE
    && m.bboxIsSeoul && m.unresolvedCount == 0 && m.recordCount == recordCount
    && |m.cacheSha256| == 64 && m.cacheSha256 == codec.digest(text)
  }

  /** The reader's answer on a manifest and a cache text. */
  function ReadFiles<R>(codec: Codec<R>, manifest: Option<Manifest>, text: Option<Text>): Result<seq<R>> {
    match manifest
    case None => Error("invalid or missing Kakao cache manifest")
    case Some(m) =>
      match text
      case None => Error("invalid or missing Kakao cache")
      case Some(t) =>
        match ParseLines(codec, SplitLines(t))
        case Error(message) => Error(message)
        case Ok(records) =>
          if ManifestAccepts(codec, m, t, |records|) then Ok(records)
          else Error("Kakao cache does not match its manifest")
  }

  function ManifestOf<R>(v: Option<Version<R>>): Option<Manifest> {
    match v case None => None case Some(version) => Some(version.manifest)
  }

  function TextOf<R>(codec: Codec<R>, v: Option<Version<R>>): Option<Text> {
    match v case None => None case Some(version) => Some(CacheText(codec, version.records))
  }

  /** A reader that opens the manifest at `t2` and the cache at `t3`. */
  function ReadCache<R>(codec: Codec<R>, log: Log<R>, t2: nat, t3: nat): Result<seq<R>>
    requires t2 <= |log| && t3 <= |log|
  {
    ReadFiles(codec, ManifestOf(ManifestAt(log, t2)), TextOf(codec, CacheAt(log, t3)))
  }

  datatype Snapshot<R> = Snapshot(records: seq<R>, generatedAt: string)

  /** `read_validated_kakao_snapshot`, which reads the manifest again before and after. */
  function ReadSnapshot<R>(codec: Codec<R>, log: Log<R>, t1: nat, t2: nat, t3: nat, t4: nat): Result<Snapshot<R>>
    requires t1 <= t2 <= t3 <= t4 <= |log|
  {
    match ManifestAt(log, t1)
    case None => Error("invalid or missing Kakao manifest")
    case Some(before) =>
      match ReadCache(codec, log, t2, t3)
      case Error(message) => Error(message)
      case Ok(records) =>
        match ManifestAt(log, t4)
        case None => Error("Kakao manifest disappeared")
        case Some(after) =>
          if before.manifest != after.manifest then Error("Kakao manifest changed while cache was being read")
          else Ok(Snapshot(records, before.manifest.generatedAt))
  }

  // ---------------------------------------------------------------------------------------
  // What a reader can see
  // ---------------------------------------------------------------------------------------

  lemma {:induction false} ManifestComesFromLog<R>(log: Log<R>, t: nat)
    requires t <= |log|
    ensures ManifestAt(log, t).Some? ==> exists j :: 0 <= j < t && log[j] == ReplaceManifest(ManifestAt(log, t).value)
  {
    if t > 0 {
      if log[t - 1].ReplaceManifest? {
        assert log[t - 1] == ReplaceManifest(log[t - 1].version);
      } else {
        ManifestComesFromLog(log, t - 1);
      }
    }
  }

  lemma ManifestInPlaceIsPublished<R>(codec: Codec<R>, log: Log<R>, t: nat)
    requires t <= |log| && CacheFirst(codec, log) && ManifestAt(log, t).Some?
    ensures Published(log, t, ManifestAt(log, t).value) && Publishable(codec, ManifestAt(log, t).value)
  {
    ManifestComesFromLog(log, t);
    var j :| 0 <= j < t && log[j] == ReplaceManifest(ManifestAt(log, t).value);
    var i :| 0 <= i < j && log[i] == ReplaceCache(log[j].version);
  }

  /**
   Whatever publishers do between its two reads, finished or killed, a reader either refuses or returns the
   records of one version that was published whole: the one whose manifest it read.
   */
  lemma AcceptedReadIsOnePublishedVersion<R(!new)>(codec: Codec<R>, log: Log<R>, t2: nat, t3: nat)
    requires JsonObjects(codec) && InjectiveDigest(codec) && CacheFirst(codec, log) && t2 <= t3 <= |log|
    requires ReadCache(codec, log, t2, t3).Ok?
    ensures ManifestAt(log, t2).Some? && Published(log, t2, ManifestAt(log, t2).value)
    ensures ReadCache(codec, log, t2, t3).value == ManifestAt(log, t2).value.records
  {
    hide CacheText, JsonObjects, CacheFirst, Published, ParseLines, SplitLines, CacheAt, ManifestAt, Unbroken;
    ManifestInPlaceIsPublished(codec, log, t2);
    var v, c := ManifestAt(log, t2).value, CacheAt(log, t3).value;
    assert CacheText(codec, c.records) == CacheText(codec, v.records);
    CacheReadsBackUnlessBroken(codec, v.records);
  }

  /** Whatever was in place between two placements of one manifest had its release time. */
  ghost predicate SteadyReleases<R(!new)>(log: Log<R>) {
    forall i, j, k :: 0 <= i < j < k < |log| && Restores(log, i, k) && log[j].ReplaceManifest? ==>
                        log[j].version.manifest.generatedAt == log[i].version.manifest.generatedAt
  }

  /** One manifest is put in place at both moments. */
  predicate Restores<R>(log: Log<R>, i: int, k: int) {
    && 0 <= i < |log| && 0 <= k < |log| && log[i].ReplaceManifest? && log[k].ReplaceManifest?
    && log[i].version.manifest == log[k].version.manifest
  }

  lemma {:induction false} ManifestStaysOrIsReplaced<R>(log: Log<R>, t1: nat, t4: nat)
    requires t1 <= t4 <= |log| && ManifestAt(log, t1).Some?
    ensures ManifestAt(log, t4).Some?
    ensures (forall t :: t1 <= t <= t4 ==> ManifestAt(log, t) == ManifestAt(log, t1))
            || exists i, j :: 0 <= i < t1 <= j < t4 && log[i] == ReplaceManifest(ManifestAt(log, t1).value)
                              && log[j] == ReplaceManifest(ManifestAt(log, t4).value)
  {
    if t1 < t4 {
      ManifestStaysOrIsReplaced(log, t1, t4 - 1);
      if log[t4 - 1].ReplaceManifest? {
        ManifestComesFromLog(log, t1);
        var i :| 0 <= i < t1 && log[i] == ReplaceManifest(ManifestAt(log, t1).value);
        assert log[t4 - 1] == ReplaceManifest(ManifestAt(log, t4).value);
      }
    }
  }

  /** The snapshot carries the records and the release time of the version whose manifest was read with the cache. */
  ghost predicate IsOneVersion<R>(log: Log<R>, t2: nat, snapshot: Snapshot<R>)
    requires t2 <= |log|
  {
    && ManifestAt(log, t2).Some? && Published(log, t2, ManifestAt(log, t2).value)
    && var v := ManifestAt(log, t2).value;
       snapshot == Snapshot(v.records, v.manifest.generatedAt)
  }

  /**
   An accepted snapshot either is one version, or a manifest was put back around the one read with the cache,
   which is readable and has another release time.
   */
  lemma AcceptedSnapshotOrRestoredManifest<R(!new)>(codec: Codec<R>, log: Log<R>, t1: nat, t2: nat, t3: nat, t4: nat)
    requires JsonObjects(codec) && InjectiveDigest(codec) && CacheFirst(codec, log)
    requires t1 <= t2 <= t3 <= t4 <= |log| && ReadSnapshot(codec, log, t1, t2, t3, t4).Ok?
    ensures ManifestAt(log, t2).Some? && Published(log, t2, ManifestAt(log, t2).value)
    ensures IsOneVersion(log, t2, ReadSnapshot(codec, log, t1, t2, t3, t4).value)
            || exists i, j, k :: MixesAround(codec, log, i, j, k)
  {
    hide CacheText, JsonObjects, CacheFirst, Published, ManifestAt, InjectiveDigest, ParseLines, SplitLines,
         CacheAt, MixesAround;
    AcceptedReadIsOnePublishedVersion(codec, log, t2, t3);
    var before, v, after := ManifestAt(log, t1).value, ManifestAt(log, t2).value, ManifestAt(log, t4).value;
    if v.manifest.generatedAt != before.manifest.generatedAt {
      ManifestStaysOrIsReplaced(log, t1, t2);
      ManifestStaysOrIsReplaced(log, t2, t4);
      var i, j :| 0 <= i < t1 <= j < t2 && log[i] == ReplaceManifest(before) && log[j] == ReplaceManifest(v);
      var j', k :| 0 <= j' < t2 <= k < t4 && log[j'] == ReplaceManifest(v) && log[k] == ReplaceManifest(after);
      AcceptedIsReadable(codec, log, t2, t3);
      MixesAroundThese(codec, log, i, j, k);
    }
  }

  /** A readable version with another release time lies between two placements of one manifest. */
  ghost predicate MixesAround<R>(codec: Codec<R>, log: Log<R>, i: int, j: int, k: int) {
    && i < j < k && Restores(log, i, k) && log[j].ReplaceManifest? && Readable(codec, log[j].version)
    && log[j].version.manifest.generatedAt != log[i].version.manifest.generatedAt
  }

  predicate Readable<R>(codec: Codec<R>, v: Version<R>) {
    ReadFiles(codec, Some(v.manifest), Some(CacheText(codec, v.records))).Ok?
  }

  lemma MixesAroundThese<R>(codec: Codec<R>, log: Log<R>, i: int, j: int, k: int)
    requires 0 <= i < j < k < |log| && log[i].ReplaceManifest? && log[j].ReplaceManifest? && log[k].ReplaceManifest?
    requires log[i].version.manifest == log[k].version.manifest && Readable(codec, log[j].version)
    requires log[j].version.manifest.generatedAt != log[i].version.manifest.generatedAt
    ensures MixesAround(codec, log, i, j, k)
  {
  }

  lemma AcceptedIsReadable<R(!new)>(codec: Codec<R>, log: Log<R>, t2: nat, t3: nat)
    requires InjectiveDigest(codec) && CacheFirst(codec, log) && t2 <= t3 <= |log| && ReadCache(codec, log, t2, t3).Ok?
    ensures Readable(codec, ManifestAt(log, t2).value)
  {
    hide CacheText, CacheFirst, Published, ParseLines, SplitLines, CacheAt, ManifestAt;
    ManifestInPlaceIsPublished(codec, log, t2);
    assert CacheText(codec, CacheAt(log, t3).value.records) == CacheText(codec, ManifestAt(log, t2).value.records);
  }

  /**
   If whatever lies between two placements of one manifest has its release time, as with any publication clock
   that does not run backwards, an accepted snapshot carries the records and release time of one published version.
   */
  lemma AcceptedSnapshotIsOneVersion<R(!new)>(codec: Codec<R>, log: Log<R>, t1: nat, t2: nat, t3: nat, t4: nat)
    requires JsonObjects(codec) && InjectiveDigest(codec) && CacheFirst(codec, log) && SteadyReleases(log)
    requires t1 <= t2 <= t3 <= t4 <= |log| && ReadSnapshot(codec, log, t1, t2, t3, t4).Ok?
    ensures IsOneVersion(log, t2, ReadSnapshot(codec, log, t1, t2, t3, t4).value)
  {
    hide JsonObjects, CacheFirst, Published, ManifestAt, ReadSnapshot, InjectiveDigest, IsOneVersion, Readable;
    AcceptedSnapshotOrRestoredManifest(codec, log, t1, t2, t3, t4);
  }

  /** No manifest was put in place twice. */
  ghost predicate DistinctManifests<R(!new)>(log: Log<R>) {
    forall i, j :: 0 <= i < j < |log| && log[i].ReplaceManifest? && log[j].ReplaceManifest? ==>
                     log[i].version.manifest != log[j].version.manifest
  }

  /** In particular when every publication has a manifest of its own. */
  lemma DistinctManifestsAreSteady<R(!new)>(log: Log<R>)
    requires DistinctManifests(log)
    ensures SteadyReleases(log)
  {
  }

  /** Every manifest is put in place right after its own cache. */
  ghost predicate WholePublications<R>(log: Log<R>) {
    forall j :: 0 <= j < |log| && log[j].ReplaceManifest? ==> j > 0 && log[j - 1] == ReplaceCache(log[j].version)
  }

  /** Every accepted snapshot, whenever its four reads happen, is one version. */
  ghost predicate SnapshotsAreVersions<R(!new)>(codec: Codec<R>, log: Log<R>) {
    forall t1: nat, t2: nat, t3: nat, t4: nat ::
      t1 <= t2 <= t3 <= t4 <= |log| && ReadSnapshot(codec, log, t1, t2, t3, t4).Ok? ==>
        IsOneVersion(log, t2, ReadSnapshot(codec, log, t1, t2, t3, t4).value)
  }

  /** Reading before, in the middle and after pairs the records of the middle with the other release time. */
  lemma RestoredManifestMixesVersions<R(!new)>(codec: Codec<R>, log: Log<R>, i: int, j: int, k: int)
    requires JsonObjects(codec) && WholePublications(log) && MixesAround(codec, log, i, j, k)
    ensures var release := log[i].version.manifest.generatedAt;
            && ReadSnapshot(codec, log, i + 1, j + 1, j + 1, k + 1) == Ok(Snapshot(log[j].version.records, release))
            && ManifestAt(log, j + 1) == Some(log[j].version) && log[j].version.manifest.generatedAt != release
  {
    hide CacheText, JsonObjects, ParseLines, SplitLines, Unbroken, ManifestAccepts;
    assert log[j - 1] == ReplaceCache(log[j].version);
    assert CacheAt(log, j + 1) == CacheAt(log, j) == Some(log[j].version);
    CacheReadsBackUnlessBroken(codec, log[j].version.records);
  }

  /**
   Over whole publications the two extra reads of the manifest are enough, for every choice of reading moments, if
   and only if no readable version lies between two placements of one manifest with another release time.
   */
  lemma SnapshotsAreVersionsExactly<R(!new)>(codec: Codec<R>, log: Log<R>)
    requires JsonObjects(codec) && InjectiveDigest(codec) && CacheFirst(codec, log) && WholePublications(log)
    ensures SnapshotsAreVersions(codec, log) <==> !exists i, j, k :: MixesAround(codec, log, i, j, k)
  {
    hide JsonObjects, CacheFirst, Published, ManifestAt, ReadSnapshot, InjectiveDigest, Readable, MixesAround;
    if i, j, k :| MixesAround(codec, log, i, j, k) {
      RestoredManifestMixesVersions(codec, log, i, j, k);
      MixHasPlaces(codec, log, i, j, k);
      assert !IsOneVersion(log, j + 1, ReadSnapshot(codec, log, i + 1, j + 1, j + 1, k + 1).value);
    } else {
      forall t1: nat, t2: nat, t3: nat, t4: nat |
        t1 <= t2 <= t3 <= t4 <= |log| && ReadSnapshot(codec, log, t1, t2, t3, t4).Ok?
        ensures IsOneVersion(log, t2, ReadSnapshot(codec, log, t1, t2, t3, t4).value)
      {
        AcceptedSnapshotOrRestoredManifest(codec, log, t1, t2, t3, t4);
      }
    }
  }

  lemma MixHasPlaces<R>(codec: Codec<R>, log: Log<R>, i: int, j: int, k: int)
    requires MixesAround(codec, log, i, j, k)
    ensures 0 <= i < j < k < |log|
  {
  }

  /** Between its two replacements a publication that changes the cache is refused by every reader. */
  lemma HalfPublicationIsRefused<R(!new)>(codec: Codec<R>, log: Log<R>, t: nat)
    requires InjectiveDigest(codec) && CacheFirst(codec, log) && t <= |log|
    requires ManifestAt(log, t).Some? && CacheAt(log, t).Some?
    requires CacheText(codec, CacheAt(log, t).value.records) != CacheText(codec, ManifestAt(log, t).value.records)
    ensures ReadCache(codec, log, t, t).Error?
  {
    hide CacheText, CacheFirst, ParseLines, SplitLines, CacheAt, ManifestAt, Published;
    ManifestInPlaceIsPublished(codec, log, t);
  }

  /** The manifest fields a reader checks besides the digest. */
  predicate HeaderFits<R>(v: Version<R>) {
    && v.manifest.schemaVersion == MANIFEST_SCHEMA_VERSION && v.manifest.categoryGroupCode == CAFE_CATEGORY_CODE
    && v.manifest.bboxIsSeoul && v.manifest.unresolvedCount == 0 && v.manifest.recordCount == |v.records|
    && |v.manifest.cacheSha256| == 64
  }

  /**
   A version published whole and left alone is read back exactly when no record text holds a line boundary
   that JSON leaves unescaped.
   */
  lemma WholePublicationReadsUnlessBroken<R(!new)>(codec: Codec<R>, log: Log<R>, t: nat, v: Version<R>)
    requires JsonObjects(codec) && t <= |log| && Publishable(codec, v) && HeaderFits(v)
    requires CacheAt(log, t) == Some(v) && ManifestAt(log, t) == Some(v)
    ensures if Unbroken(codec, v.records) then ReadCache(codec, log, t, t) == Ok(v.records)
            else ReadCache(codec, log, t, t).Error?
  {
    hide CacheText, JsonObjects, ParseLines, SplitLines, CacheAt, ManifestAt, Unbroken;
    CacheReadsBackUnlessBroken(codec, v.records);
  }

  // ---------------------------------------------------------------------------------------
  // The files
  // ---------------------------------------------------------------------------------------

  /** `cache_sha256` and the cache file: the record lines, one after the other. */
  method WriteRecords<R>(codec: Codec<R>, records: seq<R>) returns (text: Text)
    ensures text == CacheText(codec, records)
  {
    text := [];
    for k := 0 to |records|
      invariant text == CacheText(codec, records[..k])
    {
      assert records[..k + 1][..k] == records[..k];
      text := text + RecordLine(codec, records[k]);
    }
    assert records[..|records|] == records;
  }

  /** The loop of `read_kakao_cache`. */
  method ReadLines<R>(codec: Codec<R>, lines: seq<Text>) returns (result: Result<seq<R>>)
    ensures result.Ok? <==> ParseLines(codec, lines).Ok?
    ensures result.Ok? ==> result == ParseLines(codec, lines)
  {
    hide IsBlank;
    var records: seq<R> := [];
    for k := 0 to |lines|
      invariant ParseLines(codec, lines[..k]) == Ok(records)
    {
      var line := lines[k];
      assert lines[..k + 1][..k] == lines[..k];
      if !IsBlank(line) {
        match codec.decode(line)
        case None =>
          assert lines == lines[..k + 1] + lines[k + 1..];
          ParseInTwo(codec, lines[..k + 1], lines[k + 1..]);
          return Error("invalid Kakao cache line");
        case Some(r) =>
          records := records + [r];
      }
    }
    assert lines[..|lines|] == lines;
    result := Ok(records);
  }

  class Directory<R(!new)> {
    var cache: Option<Text>
    var manifest: Option<Manifest>
    ghost var log: Log<R>

    constructor ()
      ensures cache == None && manifest == None && log == []
    {
      cache, manifest, log := None, None, [];
    }

    /** The files are what the replacements left. */
    ghost predicate Valid(codec: Codec<R>)
      reads this
    {
      && CacheFirst(codec, log) && cache == TextOf(codec, CacheAt(log, |log|))
         && manifest == ManifestOf(ManifestAt(log, |log|))
    }

    /**
     `publish_cache`, of which only the first `replaced` replacements succeed. An incomplete sweep or a manifest
     with another digest is refused before anything is written; the manifest is never replaced before its cache.
     */
    method PublishCache(
        codec: Codec<R>, records: seq<R>, newManifest: Manifest, replaced: nat) returns (result: Result<()>)
      requires Valid(codec)
      modifies this
      ensures Valid(codec)
      ensures result.Ok? <==> Publishable(codec, Version(records, newManifest)) && replaced >= 2
      ensures var v := Version(records, newManifest);
              log == old(log)
                     + if !Publishable(codec, v) || replaced == 0 then []
                       else if replaced == 1 then [ReplaceCache(v)] else [ReplaceCache(v), ReplaceManifest(v)]
      ensures log == old(log) ==> cache == old(cache) && manifest == old(manifest)
    {
      hide CacheText;
      if !newManifest.complete {
        return Error("refusing to publish an incomplete Kakao sweep");
      }
      var text := WriteRecords(codec, records);
      if newManifest.cacheSha256 != codec.digest(text) {
        return Error("manifest cache hash does not match records");
      }
      ghost var v := Version(records, newManifest);
      if replaced == 0 {
        return Error("cache replacement failed");
      }
      LogGrows(codec, log, ReplaceCache(v));
      cache := Some(text);
      log := log + [ReplaceCache(v)];
      if replaced == 1 {
        return Error("manifest replacement failed");
      }
      LogGrows(codec, log, ReplaceManifest(v));
      manifest := Some(newManifest);
      log := log + [ReplaceManifest(v)];
      result := Ok(());
    }

    /** `read_kakao_cache` on the files as they are. */
    method ReadKakaoCache(codec: Codec<R>) returns (result: Result<seq<R>>)
      requires Valid(codec)
      ensures result.Ok? <==> ReadCache(codec, log, |log|, |log|).Ok?
      ensures result.Ok? ==> result == ReadCache(codec, log, |log|, |log|)
    {
      hide CacheText, ParseLines, SplitLines, CacheAt, ManifestAt, CacheFirst;
      if manifest.None? {
        return Error("invalid or missing Kakao cache manifest");
      }
      if cache.None? {
        return Error("invalid or missing Kakao cache");
      }
      result := ReadLines(codec, SplitLines(cache.value));
      if result.Ok? && !ManifestAccepts(codec, manifest.value, cache.value, |result.value|) {
        result := Error("Kakao cache does not match its manifest");
      }
    }
  }

  lemma {:induction false} EarlierFiles<R>(log: Log<R>, next: Replacement<R>, t: nat)
    requires t <= |log|
    ensures CacheAt(log + [next], t) == CacheAt(log, t) && ManifestAt(log + [next], t) == ManifestAt(log, t)
  {
    if t > 0 {
      EarlierFiles(log, next, t - 1);
    }
  }

  lemma LogGrows<R>(codec: Codec<R>, log: Log<R>, next: Replacement<R>)
    requires CacheFirst(codec, log) && Publishable(codec, next.version)
    requires next.ReplaceManifest? ==> exists i :: 0 <= i < |log| && log[i] == ReplaceCache(next.version)
    ensures CacheFirst(codec, log + [next])
    ensures CacheAt(log + [next], |log| + 1) == if next.ReplaceCache? then Some(next.version) else CacheAt(log, |log|)
    ensures ManifestAt(log + [next], |log| + 1) ==
            if next.ReplaceManifest? then Some(next.version) else ManifestAt(log, |log|)
  {
    hide CacheText, Publishable;
    EarlierFiles(log, next, |log|);
    var more := log + [next];
    forall j | 0 <= j < |more| && more[j].ReplaceManifest?
      ensures exists i :: 0 <= i < j && more[i] == ReplaceCache(more[j].version)
    {
      if j < |log| {
        var i :| 0 <= i < j && log[i] == ReplaceCache(log[j].version);
        assert more[i] == log[i];
      } else {
        var i :| 0 <= i < |log| && log[i] == ReplaceCache(next.version);
        assert more[i] == log[i];
      }
    }
  }
}
