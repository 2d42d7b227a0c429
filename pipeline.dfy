/** The document-processing DAG: the settings taken from the configured
    paths, which listed objects are processed, the paths handed to the two
    extractors, and the loop over the listing with its failure behaviour. */
module Pipeline {
  import opened Common
  import opened PyStrings
  import opened PosixPath
  import opened TextExtractor
  import opened MetadataExtractor

  const AllowedExtensions: seq<string> := [".pdf", ".docx", ".txt"]

  /** The module-level values read from the configuration. */
  datatype Settings = Settings(inputBucket: string, inputPrefix: string, outputBucket: string, teamProject: string)

  /** `seg` is the text of `s` before its first `/` (all of `s` when there
      is none). */
  predicate IsFirstSegment(seg: string, s: string) {
    '/' !in seg && |seg| <= |s| && s[..|seg|] == seg && (|seg| < |s| ==> s[|seg|] == '/')
  }

  /** The head of `split("/", 1)` is the first `/`-separated segment. */
  lemma SplitOnceHeadIsFirstSegment(s: string)
    ensures IsFirstSegment(SplitOnce(s, '/')[0], s)
  {
    var parts := SplitOnce(s, '/');
    if |parts| == 2 {
      assert s[..|parts[0]|] == parts[0];
      assert s[|parts[0]|] == '/';
    }
  }

  /** The module-level settings of the pipeline: the input path is
      unpacked at its first `/` after every `s3://` is removed, and raises
      without one (`None` here); the output bucket is the first segment of
      the metadata path, with or without a `/`; the team project is the
      first segment of the input prefix. */
  function LoadSettings(inputPath: string, metadataPath: string): (r: Option<Settings>)
    ensures r.None? <==> '/' !in Replace(inputPath, S3Scheme, "")
    ensures r.Some? ==> '/' !in r.value.inputBucket
    ensures r.Some? ==> r.value.inputBucket + "/" + r.value.inputPrefix == Replace(inputPath, S3Scheme, "")
    ensures r.Some? ==> IsFirstSegment(r.value.outputBucket, Replace(metadataPath, S3Scheme, ""))
    ensures r.Some? ==> IsFirstSegment(r.value.teamProject, r.value.inputPrefix)
  {
    var inputParts := SplitOnce(Replace(inputPath, S3Scheme, ""), '/');
    if |inputParts| == 1 then None
    else
      var outputBucket := SplitOnce(Replace(metadataPath, S3Scheme, ""), '/')[0];
      var teamProject := Split(inputParts[1], '/')[0];
      SplitOnceHeadIsFirstSegment(Replace(metadataPath, S3Scheme, ""));
      SplitHeadIsSplitOnceHead(inputParts[1], '/');
      SplitOnceHeadIsFirstSegment(inputParts[1]);
      Some(Settings(inputParts[0], inputParts[1], outputBucket, teamProject))
  }

  /** Round trip: configured paths `s3://bucket/team/rest` and
      `s3://outputBucket/more` give back their parts. */
  lemma LoadSettingsOfPaths(bucket: string, team: string, rest: string, outputBucket: string, more: string)
    requires '/' !in bucket && '/' !in team && '/' !in outputBucket
    requires !Contains(bucket + "/" + (team + "/" + rest), S3Scheme)
    requires !Contains(outputBucket + "/" + more, S3Scheme)
    ensures LoadSettings(S3Scheme + bucket + "/" + (team + "/" + rest), S3Scheme + outputBucket + "/" + more)
      == Some(Settings(bucket, team + "/" + rest, outputBucket, team))
  {
    var inputRest := bucket + "/" + (team + "/" + rest);
    var outputRest := outputBucket + "/" + more;
    assert S3Scheme + bucket + "/" + (team + "/" + rest) == S3Scheme + inputRest;
    assert S3Scheme + outputBucket + "/" + more == S3Scheme + outputRest;
    StripScheme(inputRest);
    StripScheme(outputRest);
    assert inputRest[|bucket|] == '/';
    assert outputRest[|outputBucket|] == '/';
    assert (team + "/" + rest)[|team|] == '/';
    var inputParts := SplitOnce(inputRest, '/');
    SplitPointUnique(inputParts[0], inputParts[1], bucket, team + "/" + rest, '/');
    var outputParts := SplitOnce(outputRest, '/');
    SplitPointUnique(outputParts[0], outputParts[1], outputBucket, more, '/');
    var teamParts := SplitOnce(team + "/" + rest, '/');
    SplitPointUnique(teamParts[0], teamParts[1], team, rest, '/');
    SplitHeadIsSplitOnceHead(team + "/" + rest, '/');
  }

  /** The file name `list_and_process_documents` takes from a key:
      `file_key.split('/')[-1]`. */
  function FileNameOf(key: string): (name: string)
    ensures '/' !in name
  {
    Split(key, '/')[|Split(key, '/')| - 1]
  }

  /** The last segment of the key is its basename, the name the text
      extractor derives from the same key. */
  lemma FileNameIsBasename(key: string)
    ensures FileNameOf(key) == Basename(key)
  {
    var parts := Split(key, '/');
    SplitLast(key, '/');
    SplitCount(key, '/');
    if |parts| == 1 {
      BasenameOfName(key);
    } else {
      BasenameOfChild(Join("/", parts[..|parts| - 1]), parts[|parts| - 1]);
    }
  }

  /** The test `list_and_process_documents` applies: the lower-cased file name ends in an allowed extension. */
  predicate IsSelected(key: string) {
    EndsWithAny(Lower(FileNameOf(key)), AllowedExtensions)
  }

  /** The keys the loop hands on, in listing order. */
  function SelectedKeys(keys: seq<string>): seq<string> {
    Filter(keys, IsSelected)
  }

  /** Lower-casing works character by character, so it distributes over `+`. */
  lemma LowerConcat(a: string, b: string)
    ensures Lower(a + b) == Lower(a) + Lower(b)
  {
    assert forall i :: 0 <= i < |a + b| ==> Lower(a + b)[i] == (Lower(a) + Lower(b))[i];
  }

  /** A name is selected whatever the case of its extension: `n + e` is
      selected when `e` lower-cases to an allowed extension. */
  lemma SelectedInAnyCase(dir: string, n: string, e: string)
    requires '/' !in n + e
    requires Lower(e) in AllowedExtensions
    ensures IsSelected(dir + "/" + (n + e))
  {
    BasenameOfChild(dir, n + e);
    FileNameIsBasename(dir + "/" + (n + e));
    LowerConcat(n, e);
    var lowered := Lower(n + e);
    assert lowered[|lowered| - |Lower(e)|..] == Lower(e);
    assert EndsWith(lowered, Lower(e));
  }

  /** A folder marker (a key ending in `/`) is never selected: its file
      name is empty. */
  lemma FolderMarkerNotSelected(key: string)
    requires EndsWith(key, "/")
    ensures !IsSelected(key)
  {
    FileNameIsBasename(key);
    assert key[|key| - 1] == '/';
    BasenameAfter(key, |key| - 1);
    assert Lower(Basename(key)) == [];
  }

  /** Only the three extensions count: a `.png` name is skipped. */
  lemma PngNotSelected(dir: string, n: string)
    requires '/' !in n
    ensures !IsSelected(dir + "/" + (n + ".png"))
  {
    BasenameOfChild(dir, n + ".png");
    FileNameIsBasename(dir + "/" + (n + ".png"));
    var lowered := Lower(n + ".png");
    assert lowered[|lowered| - 1] == 'g';
    forall ext | ext in AllowedExtensions
      ensures !EndsWith(lowered, ext)
    {
      assert ext[|ext| - 1] != 'g';
    }
  }

  /** The input path `list_and_process_documents` builds for the listed object that is processed. */
  function InputPath(s: Settings, key: string): string {
    S3Scheme + s.inputBucket + "/" + key
  }

  /** The output root `list_and_process_documents` hands to
      `process_document`, which does not use it. */
  function OutputRoot(s: Settings): string {
    S3Scheme + s.outputBucket + "/" + s.teamProject + "/output"
  }

  /** Where `process_document` has the text extractor write. */
  function OcrOutputPath(s: Settings): string {
    S3Scheme + s.outputBucket + "/" + s.teamProject + "/output/ocr-raw-text"
  }

  /** Where `process_document` has the metadata extractor write. */
  function MetadataOutputPath(s: Settings): string {
    S3Scheme + s.outputBucket + "/" + s.teamProject + "/output/metadata"
  }

  /** The services both extractors use. */
  datatype Services<!B, D, !J> = Services(text: TextServices<B, D>, metadata: MetadataServices<J>)

  /** `process_document` either raises or finishes, with the metadata or
      `None`. */
  datatype DocOutcome<J> = DocumentRaised | DocumentDone(metadata: Option<J>)

  /** `process_document`: a text extraction that raises is re-raised and
      the metadata extractor is not reached; otherwise the metadata
      extractor runs on the extracted text, and its `None` only logs a
      warning. */
  function ProcessDocument<B, D, J>(sv: Services<B, D, J>, s: Settings, inputPath: string, outputPath: string, fileName: string): (r: DocOutcome<J>)
    ensures r.DocumentRaised? <==> ExtractText(sv.text, inputPath, OcrOutputPath(s)).TextRaised?
    ensures r.DocumentDone? ==>
      r.metadata == ExtractMetadata(sv.metadata, ExtractText(sv.text, inputPath, OcrOutputPath(s)).content, MetadataOutputPath(s), fileName)
  {
    match ExtractText(sv.text, inputPath, OcrOutputPath(s))
    case TextRaised => DocumentRaised
    case TextExtracted(_, content) =>
      DocumentDone(ExtractMetadata(sv.metadata, content, MetadataOutputPath(s), fileName))
  }

  /** `process_document` with the services and settings fixed, as the
      step the loop applies to each selected key. */
  function DocumentStep<B, D, J>(sv: Services<B, D, J>, s: Settings): (string, string, string) -> DocOutcome<J> {
    (inputPath, outputPath, fileName) => ProcessDocument(sv, s, inputPath, outputPath, fileName)
  }

  /** One `process_document` call of the loop: its arguments and outcome. */
  datatype DocCall<J> = DocCall(inputPath: string, outputPath: string, fileName: string, outcome: DocOutcome<J>)

  /** How `list_and_process_documents` ends: normally, by a document's
      exception, or by the listing's own exception. */
  datatype RunStatus = Finished | Aborted | ListingRaised

  /** The calls the loop made, in order, and how it ended. */
  datatype Run<J> = Run(calls: seq<DocCall<J>>, status: RunStatus)

  /** The call made for a selected key. */
  function Call<J>(step: (string, string, string) -> DocOutcome<J>, s: Settings, key: string): DocCall<J> {
    var inputPath := InputPath(s, key);
    var outputPath := OutputRoot(s);
    var fileName := FileNameOf(key);
    DocCall(inputPath, outputPath, fileName, step(inputPath, outputPath, fileName))
  }

  /** The calls the loop makes over `keys`, up to and including the first
      one that raises. */
  function ProcessKeys<J>(step: (string, string, string) -> DocOutcome<J>, s: Settings, keys: seq<string>): Run<J>
    decreases |keys|
  {
    if keys == [] then Run([], Finished)
    else if !IsSelected(keys[0]) then ProcessKeys(step, s, keys[1..])
    else
      var call := Call(step, s, keys[0]);
      if call.outcome.DocumentRaised? then Run([call], Aborted)
      else
        var rest := ProcessKeys(step, s, keys[1..]);
        Run([call] + rest.calls, rest.status)
  }

  /** The whole task: an exception from the listing ends it before any
      document. */
  function RunPipeline<B, D, J>(sv: Services<B, D, J>, s: Settings, response: ListResponse): Run<J> {
    match response
    case Listed(keys) => ProcessKeys(DocumentStep(sv, s), s, keys)
    case ClientError => Run([], ListingRaised)
    case OtherError => Run([], ListingRaised)
  }

  /** Walking one more key of the listing. */
  lemma ProcessKeysStep<J>(step: (string, string, string) -> DocOutcome<J>, s: Settings, keys: seq<string>, i: nat)
    requires i < |keys|
    ensures var here, next := ProcessKeys(step, s, keys[i..]), ProcessKeys(step, s, keys[i + 1..]);
      var call := Call(step, s, keys[i]);
      if !IsSelected(keys[i]) then here == next
      else if call.outcome.DocumentRaised? then here == Run([call], Aborted)
      else here == Run([call] + next.calls, next.status)
  {
    assert keys[i..][0] == keys[i];
    assert keys[i..][1..] == keys[i + 1..];
  }

  /** `list_and_process_documents`: walk the listing, and for each key whose
      file name has an allowed extension call `process_document`; the
      first exception ends the walk. */
  method ListAndProcessDocuments<B, D, J>(sv: Services<B, D, J>, s: Settings, response: ListResponse)
    returns (calls: seq<DocCall<J>>, status: RunStatus)
    ensures Run(calls, status) == RunPipeline(sv, s, response)
  {
    if !response.Listed? {
      return [], ListingRaised;
    }
    var keys := response.keys;
    ghost var step := DocumentStep(sv, s);
    calls, status := [], Finished;
    var i := 0;
    while i < |keys|
      invariant 0 <= i <= |keys|
      invariant ProcessKeys(step, s, keys)
        == Run(calls + ProcessKeys(step, s, keys[i..]).calls, ProcessKeys(step, s, keys[i..]).status)
    {
      var key := keys[i];
      ProcessKeysStep(step, s, keys, i);
      ghost var next := ProcessKeys(step, s, keys[i + 1..]);
      var fileName := FileNameOf(key);
      if EndsWithAny(Lower(fileName), AllowedExtensions) {
        var inputPath := InputPath(s, key);
        var outputPath := OutputRoot(s);
        var outcome := ProcessDocument(sv, s, inputPath, outputPath, fileName);
        var call := DocCall(inputPath, outputPath, fileName, outcome);
        assert call == Call(step, s, key);
        if outcome.DocumentRaised? {
          return calls + [call], Aborted;
        }
        AppendAssoc(calls, [call], next.calls);
        calls := calls + [call];
      }
      i := i + 1;
    }
    assert keys[i..] == [];
  }

  /** The loop follows the selection: the calls are made for the selected
      keys, in listing order, one per key, and never for more of them. */
  lemma {:induction false} ProcessKeysFollowsSelection<J>(step: (string, string, string) -> DocOutcome<J>, s: Settings, keys: seq<string>)
    ensures var r := ProcessKeys(step, s, keys);
      |r.calls| <= |SelectedKeys(keys)| &&
      forall i :: 0 <= i < |r.calls| ==> r.calls[i] == Call(step, s, SelectedKeys(keys)[i])
    ensures ProcessKeys(step, s, keys).status == Finished ==> |ProcessKeys(step, s, keys).calls| == |SelectedKeys(keys)|
    decreases |keys|
  {
    if keys != [] {
      var rest := ProcessKeys(step, s, keys[1..]);
      ProcessKeysFollowsSelection(step, s, keys[1..]);
      if IsSelected(keys[0]) {
        var selected := SelectedKeys(keys);
        assert selected == [keys[0]] + SelectedKeys(keys[1..]);
        var call := Call(step, s, keys[0]);
        if !call.outcome.DocumentRaised? {
          var r := ProcessKeys(step, s, keys);
          assert r.calls == [call] + rest.calls;
          forall i | 0 < i < |r.calls|
            ensures r.calls[i] == Call(step, s, selected[i])
          {
            assert r.calls[i] == rest.calls[i - 1];
            assert selected[i] == SelectedKeys(keys[1..])[i - 1];
          }
        }
      } else {
        assert SelectedKeys(keys) == SelectedKeys(keys[1..]);
      }
    }
  }

  /** The first exception ends the run: every call but the last finished,
      the run is aborted exactly when the last call raised, and it ends
      normally exactly when no call raised. */
  lemma {:induction false} ProcessKeysStopsAtFirstRaise<J>(step: (string, string, string) -> DocOutcome<J>, s: Settings, keys: seq<string>)
    ensures var r := ProcessKeys(step, s, keys);
      forall i :: 0 <= i < |r.calls| - 1 ==> r.calls[i].outcome.DocumentDone?
    ensures var r := ProcessKeys(step, s, keys);
      r.status == Aborted <==> r.calls != [] && r.calls[|r.calls| - 1].outcome.DocumentRaised?
    ensures var r := ProcessKeys(step, s, keys);
      r.status == Finished <==> forall i :: 0 <= i < |r.calls| ==> r.calls[i].outcome.DocumentDone?
    decreases |keys|
  {
    if keys != [] {
      var rest := ProcessKeys(step, s, keys[1..]);
      ProcessKeysStopsAtFirstRaise(step, s, keys[1..]);
      var call := Call(step, s, keys[0]);
      if IsSelected(keys[0]) && !call.outcome.DocumentRaised? {
        var r := ProcessKeys(step, s, keys);
        assert r.calls == [call] + rest.calls;
        assert r.status == rest.status;
        assert forall i :: 0 < i < |r.calls| ==> r.calls[i] == rest.calls[i - 1];
        assert r.calls[0] == call;
      }
    }
  }

  /** The `.txt` and `.json` artefacts of a document share their stem,
      provided the input key reaches the text extractor unchanged. */
  lemma ArtefactNamesShareStem(s: Settings, key: string)
    requires '/' !in s.inputBucket
    requires !Contains(s.inputBucket + "/" + key, S3Scheme)
    ensures var textName := TextFileName(ParseS3Path(InputPath(s, key)).1);
      var metadataName := MetadataFileName(FileNameOf(key));
      textName[..|textName| - 4] == metadataName[..|metadataName| - 5]
  {
    ParseS3PathOfClean(s.inputBucket, key);
    FileNameIsBasename(key);
    BasenameOfName(FileNameOf(key));
    var textName := TextFileName(key);
    var metadataName := MetadataFileName(FileNameOf(key));
    assert textName[..|textName| - 4] == Stem(Basename(key));
    assert metadataName[..|metadataName| - 5] == Stem(Basename(key));
  }

  /** The key `d/xs3://.pdf` reaches the text extractor as `d/x.pdf`, so
      its text is stored as `x.txt`. */
  lemma MangledKeyTextName(s: Settings)
    requires s.inputBucket == "b"
    ensures TextFileName(ParseS3Path(InputPath(s, "d/xs3://.pdf")).1) == "x.txt"
  {
    assert "d/x" + ".pdf" == "d" + "/" + ("x" + "." + "pdf");
    assert "x" + ".txt" == "x.txt";
    assert InputPath(s, "d/xs3://.pdf") == S3Scheme + "b" + "/" + "d/x" + S3Scheme + ".pdf";
    assert !AllDots("x") by { assert "x"[0] != '.'; }
    MissingHeadNotContained("b" + "/" + "d/x", S3Scheme);
    MissingHeadNotContained(".pdf", S3Scheme);
    ParseS3PathRemovesEveryScheme("b", "d/x", ".pdf");
    TextFileNameOfDottedName("d", "x", "pdf");
  }

  /** The file name of the key `d/xs3://.pdf` is `.pdf`, which has no
      extension, so its metadata is stored as `.pdf.json`. */
  lemma MangledKeyMetadataName()
    ensures MetadataFileName(FileNameOf("d/xs3://.pdf")) == ".pdf.json"
  {
    MangledKeyFileName();
    HiddenMetadataName();
  }

  /** The last segment of `d/xs3://.pdf` is `.pdf`. */
  lemma MangledKeyFileName()
    ensures FileNameOf("d/xs3://.pdf") == ".pdf"
  {
    var key := "d/xs3://.pdf";
    assert key == "d/xs3:/" + "/" + ".pdf";
    FileNameIsBasename(key);
    BasenameOfChild("d/xs3:/", ".pdf");
  }

  /** `.pdf` has no extension, so its metadata name is `.pdf.json`. */
  lemma HiddenMetadataName()
    ensures MetadataFileName(".pdf") == ".pdf.json"
  {
    var d, e := ".", "pdf";
    assert d + e == ".pdf";
    assert d + e + ".json" == ".pdf.json";
    assert AllDots(d);
    MetadataFileNameOfLeadingDots(d, e);
  }

  /** The condition of `ArtefactNamesShareStem` is needed: for the key
      `d/xs3://.pdf` the two artefacts get different stems. */
  lemma ArtefactNamesMayDiffer(s: Settings)
    requires s.inputBucket == "b"
    ensures var textName := TextFileName(ParseS3Path(InputPath(s, "d/xs3://.pdf")).1);
      var metadataName := MetadataFileName(FileNameOf("d/xs3://.pdf"));
      textName[..|textName| - 4] != metadataName[..|metadataName| - 5]
  {
    MangledKeyTextName(s);
    MangledKeyMetadataName();
    assert "x.txt"[..1] != ".pdf.json"[..4];
  }

  /** The fixed tails of the two output paths have no `//`. */
  lemma OutputTailsSingleSlashed()
    ensures NoDoubleSlash("/output/ocr-raw-text")
    ensures NoDoubleSlash("/output/metadata")
  {
  }

  /** An output path `bucket/team<tail>` holds no second `s3://` when the
      team is not empty and nothing doubles a `/`. */
  lemma OutputPathClean(bucket: string, team: string, tail: string)
    requires '/' !in bucket && '/' !in team && team != []
    requires NoDoubleSlash(tail)
    ensures !Contains(bucket + "/" + (team + tail), S3Scheme)
  {
    var x1 := bucket + "/";
    var x2 := x1 + team;
    var x3 := x2 + tail;
    assert x3 == bucket + "/" + (team + tail);
    NoDoubleSlashConcat(bucket, "/");
    NoDoubleSlashConcat(x1, team);
    assert x2[|x2| - 1] == team[|team| - 1];
    NoDoubleSlashConcat(x2, tail);
    NoSchemeWithoutDoubleSlash(x3);
  }

  /** Where the recognised text of a listed key goes:
      `outputBucket/team/output/ocr-raw-text/<stem>.txt`. */
  lemma TextArtefactLocation(s: Settings, key: string)
    requires '/' !in s.inputBucket && '/' !in s.outputBucket && '/' !in s.teamProject
    requires s.teamProject != []
    requires !Contains(s.inputBucket + "/" + key, S3Scheme)
    ensures TextDestination(InputPath(s, key), OcrOutputPath(s))
      == (s.outputBucket, s.teamProject + "/output/ocr-raw-text" + "/" + (Stem(Basename(key)) + ".txt"))
  {
    var prefix := s.teamProject + "/output/ocr-raw-text";
    assert OcrOutputPath(s) == S3Scheme + s.outputBucket + "/" + prefix;
    OutputTailsSingleSlashed();
    OutputPathClean(s.outputBucket, s.teamProject, "/output/ocr-raw-text");
    ParseS3PathOfClean(s.outputBucket, prefix);
    ParseS3PathOfClean(s.inputBucket, key);
  }

  /** Where the metadata of a listed key goes:
      `outputBucket/team/output/metadata/<stem>.json`. */
  lemma MetadataArtefactLocation(s: Settings, key: string)
    requires '/' !in s.outputBucket && '/' !in s.teamProject
    requires s.teamProject != []
    ensures MetadataDestination(MetadataOutputPath(s)) == Some((s.outputBucket, s.teamProject + "/output/metadata"))
    ensures MetadataKey(s.teamProject + "/output/metadata", FileNameOf(key))
      == s.teamProject + "/output/metadata" + "/" + (Stem(Basename(key)) + ".json")
  {
    var prefix := s.teamProject + "/output/metadata";
    assert MetadataOutputPath(s) == S3Scheme + s.outputBucket + "/" + prefix;
    OutputTailsSingleSlashed();
    OutputPathClean(s.outputBucket, s.teamProject, "/output/metadata");
    MetadataDestinationOfClean(s.outputBucket, prefix);
    FileNameIsBasename(key);
    BasenameOfName(FileNameOf(key));
  }
}
