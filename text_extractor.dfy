/** The text extractor: parsing `s3://bucket/key` paths, naming the `.txt`
    artefact, listing the objects under a prefix, and the download, OCR and
    upload sequence, with the storage and OCR services as parameters. */
module TextExtractor {
  import opened Common
  import opened PyStrings
  import opened PosixPath

  const S3Scheme: string := "s3://"

  /** `parse_s3_path`: remove every `s3://`, split on `/`, keep the first
      part as the bucket and rejoin the rest as the key. The bucket is the
      text before the first `/` of the stripped path; without a `/` the
      key is empty. */
  function ParseS3Path(path: string): (r: (string, string))
    ensures '/' !in r.0
    ensures '/' in Replace(path, S3Scheme, "") ==> r.0 + "/" + r.1 == Replace(path, S3Scheme, "")
    ensures '/' !in Replace(path, S3Scheme, "") ==> r.0 == Replace(path, S3Scheme, "") && r.1 == ""
  {
    var stripped := Replace(path, S3Scheme, "");
    var parts := Split(stripped, '/');
    SplitCount(stripped, '/');
    (parts[0], Join("/", parts[1..]))
  }

  /** Splitting on every `/` and rejoining the tail is the same as splitting
      once at the first `/`, which is what the pipeline and the metadata
      extractor do with `split("/", 1)`. */
  lemma ParseS3PathSplitsOnce(path: string)
    ensures var parts := SplitOnce(Replace(path, S3Scheme, ""), '/');
      ParseS3Path(path) == (parts[0], if |parts| == 2 then parts[1] else "")
  {
    var stripped := Replace(path, S3Scheme, "");
    var parts := SplitOnce(stripped, '/');
    var r := ParseS3Path(path);
    if |parts| == 2 {
      SplitPointUnique(r.0, r.1, parts[0], parts[1], '/');
    }
  }

  /** Removing the scheme from a path that holds no other `s3://`. */
  lemma StripScheme(rest: string)
    requires !Contains(rest, S3Scheme)
    ensures Replace(S3Scheme + rest, S3Scheme, "") == rest
  {
    var pieces := ["", rest];
    assert Join(S3Scheme, pieces) == S3Scheme + rest;
    HeadUniqueUnbordered(S3Scheme);
    MissingHeadNotContained(pieces[0], S3Scheme);
    ReplaceJoin(pieces, S3Scheme, "");
  }

  /** Round trip: a path built as `s3://bucket/key` parses back into its
      bucket and key, provided the bucket has no `/` and nothing after the
      scheme spells `s3://` again. */
  lemma ParseS3PathOfClean(bucket: string, key: string)
    requires '/' !in bucket
    requires !Contains(bucket + "/" + key, S3Scheme)
    ensures ParseS3Path(S3Scheme + bucket + "/" + key) == (bucket, key)
  {
    var rest := bucket + "/" + key;
    assert S3Scheme + bucket + "/" + key == S3Scheme + rest;
    StripScheme(rest);
    assert '/' in rest by { assert rest[|bucket|] == '/'; }
    var r := ParseS3Path(S3Scheme + bucket + "/" + key);
    SplitPointUnique(r.0, r.1, bucket, key, '/');
  }

  /** `s3://` is removed wherever it occurs, not only at the front: a key
      `k1 + "s3://" + k2` is read as `k1 + k2`, so `s3://b/x/s3://y` gives
      `("b", "x/y")` and the listed key `d/xs3://.pdf` names `d/x.pdf`. */
  lemma ParseS3PathRemovesEveryScheme(bucket: string, k1: string, k2: string)
    requires '/' !in bucket
    requires !Contains(bucket + "/" + k1, S3Scheme) && !Contains(k2, S3Scheme)
    ensures ParseS3Path(S3Scheme + bucket + "/" + k1 + S3Scheme + k2) == (bucket, k1 + k2)
  {
    var head := bucket + "/" + k1;
    var pieces := ["", head, k2];
    assert pieces[1..] == [head, k2] && [head, k2][1..] == [k2];
    assert Join(S3Scheme, [head, k2]) == head + S3Scheme + k2;
    assert Join(S3Scheme, pieces) == "" + S3Scheme + Join(S3Scheme, [head, k2]);
    assert Join(S3Scheme, pieces) == S3Scheme + bucket + "/" + k1 + S3Scheme + k2;
    assert Join("", [head, k2]) == head + "" + k2;
    assert Join("", pieces) == "" + "" + Join("", [head, k2]);
    assert Join("", pieces) == bucket + "/" + (k1 + k2);
    HeadUniqueUnbordered(S3Scheme);
    MissingHeadNotContained(pieces[0], S3Scheme);
    ReplaceJoin(pieces, S3Scheme, "");
    var r := ParseS3Path(S3Scheme + bucket + "/" + k1 + S3Scheme + k2);
    assert (bucket + "/" + (k1 + k2))[|bucket|] == '/';
    SplitPointUnique(r.0, r.1, bucket, k1 + k2, '/');
  }

  /** No two consecutive slashes. */
  predicate NoDoubleSlash(s: string) {
    forall i :: 0 <= i < |s| - 1 ==> !(s[i] == '/' && s[i + 1] == '/')
  }

  /** `s3://` holds `//`, so a string without `//` does not contain it. */
  lemma NoSchemeWithoutDoubleSlash(s: string)
    requires NoDoubleSlash(s)
    ensures !Contains(s, S3Scheme)
  {
    forall j | 0 <= j
      ensures !OccursAt(s, S3Scheme, j)
    {
      if j + 5 <= |s| {
        assert s[j..j + 5][3] == s[j + 3];
        assert s[j..j + 5][4] == s[j + 4];
      }
    }
  }

  /** Gluing two strings without `//` creates none unless the seam does. */
  lemma NoDoubleSlashConcat(a: string, b: string)
    requires NoDoubleSlash(a) && NoDoubleSlash(b)
    requires a == [] || b == [] || a[|a| - 1] != '/' || b[0] != '/'
    ensures NoDoubleSlash(a + b)
  {
    var s := a + b;
    forall i | 0 <= i < |s| - 1
      ensures !(s[i] == '/' && s[i + 1] == '/')
    {
      if i + 1 < |a| {
        assert s[i] == a[i] && s[i + 1] == a[i + 1];
      } else if i >= |a| {
        assert s[i] == b[i - |a|] && s[i + 1] == b[i - |a| + 1];
      }
    }
  }

  /** The name `text_extractor` gives the text artefact. It has no `/`,
      ends in `.txt`, and in front of `.txt` stands the key's basename with
      the extension `splitext` found removed. */
  function TextFileName(inputKey: string): (name: string)
    ensures '/' !in name
    ensures EndsWith(name, ".txt")
    ensures name[..|name| - 4] + SplitExt(Basename(inputKey)).1 == Basename(inputKey)
  {
    ArtefactName(inputKey, ".txt")
  }

  /** Only the last extension of a name is replaced: `dir/a.tar.gz` gives
      `a.tar.txt`. */
  lemma TextFileNameOfDottedName(dir: string, n: string, e: string)
    requires '/' !in n && '/' !in e && '.' !in e
    requires !AllDots(n)
    ensures TextFileName(dir + "/" + (n + "." + e)) == n + ".txt"
  {
    BasenameOfChild(dir, n + "." + e);
    SplitExtOfDottedName(n, e);
  }

  /** A name that is dots followed by dot-free text keeps all of it:
      `dir/.pdf` gives `.pdf.txt`. */
  lemma TextFileNameOfLeadingDots(dir: string, d: string, e: string)
    requires AllDots(d) && '.' !in e && '/' !in d + e
    ensures TextFileName(dir + "/" + (d + e)) == d + e + ".txt"
  {
    BasenameOfChild(dir, d + e);
    SplitExtOfLeadingDots(d, e);
  }

  /** `dir/a.tar.gz` gives `a.tar.txt`. */
  lemma TextFileNameOfArchive(dir: string)
    ensures TextFileName(dir + "/a.tar.gz") == "a.tar.txt"
  {
    var n, e := "a.tar", "gz";
    assert !AllDots(n) by { assert n[0] != '.'; }
    assert "/" + (n + "." + e) == "/a.tar.gz";
    assert dir + "/" + (n + "." + e) == dir + ("/" + (n + "." + e));
    assert n + ".txt" == "a.tar.txt";
    TextFileNameOfDottedName(dir, n, e);
  }

  /** `dir/.pdf` gives `.pdf.txt`. */
  lemma TextFileNameOfHidden(dir: string)
    ensures TextFileName(dir + "/.pdf") == ".pdf.txt"
  {
    var d, e := ".", "pdf";
    assert "/" + (d + e) == "/.pdf";
    assert dir + "/" + (d + e) == dir + ("/" + (d + e));
    assert d + e + ".txt" == ".pdf.txt";
    TextFileNameOfLeadingDots(dir, d, e);
  }

  /** The key `text_extractor` stores the text artefact under. Its basename
      is the artefact name and it lies directly under `prefix/`: the key is
      exactly `prefix + "/" + name`. */
  function TextOutputKey(prefix: string, inputKey: string): (key: string)
    ensures Basename(key) == TextFileName(inputKey)
    ensures |key| > |prefix| && key[..|prefix| + 1] == prefix + "/"
    ensures |key| == |prefix| + 1 + |TextFileName(inputKey)|
  {
    var name := TextFileName(inputKey);
    BasenameOfChild(prefix, name);
    assert (prefix + "/" + name)[..|prefix| + 1] == prefix + "/";
    prefix + "/" + name
  }

  /** The bucket and key the recognised text is stored under: the output
      path's bucket, and its prefix followed by the artefact name. */
  function TextDestination(inputPath: string, outputPath: string): (r: (string, string))
    ensures '/' !in r.0
    ensures r.0 == ParseS3Path(outputPath).0
    ensures Basename(r.1) == TextFileName(ParseS3Path(inputPath).1)
    ensures |r.1| == |ParseS3Path(outputPath).1| + 1 + |TextFileName(ParseS3Path(inputPath).1)|
    ensures r.1[..|ParseS3Path(outputPath).1| + 1] == ParseS3Path(outputPath).1 + "/"
  {
    (ParseS3Path(outputPath).0, TextOutputKey(ParseS3Path(outputPath).1, ParseS3Path(inputPath).1))
  }

  /** What `list_objects_v2` answered: the listed keys, a `ClientError`, or
      any other exception. */
  datatype ListResponse = Listed(keys: seq<string>) | ClientError | OtherError

  /** Keys ending in `/` are folder markers, not files. */
  predicate IsObjectKey(key: string) {
    !EndsWith(key, "/")
  }

  /** `list_s3_files`: the listed keys that do not end in `/`. A
      `ClientError` gives the empty list; any other exception propagates,
      which is `None` here. */
  function ListS3Files(response: ListResponse): (r: Option<seq<string>>)
    ensures r.None? <==> response.OtherError?
    ensures response.ClientError? ==> r == Some([])
    ensures response.Listed? ==> r.Some? && |r.value| <= |response.keys|
    ensures response.Listed? ==> forall k :: k in r.value ==> k in response.keys && !EndsWith(k, "/")
    ensures response.Listed? ==> forall k :: k in response.keys && !EndsWith(k, "/") ==> k in r.value
  {
    match response
    case Listed(keys) => Some(Filter(keys, IsObjectKey))
    case ClientError => Some([])
    case OtherError => None
  }

  /** The listing order is kept: the files of two consecutive runs of the
      listing are the files of the first followed by those of the second. */
  lemma ListS3FilesKeepsOrder(xs: seq<string>, ys: seq<string>)
    ensures ListS3Files(Listed(xs + ys)).value == ListS3Files(Listed(xs)).value + ListS3Files(Listed(ys)).value
  {
    FilterConcat(xs, ys, IsObjectKey);
  }

  /** One listed key is kept exactly when it does not end in `/`. */
  lemma ListS3FilesSingle(key: string)
    ensures ListS3Files(Listed([key])).value == if EndsWith(key, "/") then [] else [key]
  {
    assert [key][1..] == [];
  }

  /** The storage and OCR services `text_extractor` calls, as parameters:
      fetching an object, analysing it (its result and its text), and
      storing a text object. `None`/`false` is an exception. */
  datatype TextServices<!B, D> = TextServices(
    download: (string, string) -> Option<B>,
    analyse: B -> Option<(D, string)>,
    upload: (string, string, string) -> bool)

  /** `text_extractor` either raises or returns the analysis and its text. */
  datatype TextResult<D> = TextRaised | TextExtracted(analysis: D, content: string)

  /** `text_extractor` once the paths are parsed: fetch `source`, analyse
      it, and store its text at `destination`. It returns the analysis
      exactly when all three steps succeed, and the stored text is the
      returned content. */
  function ExtractTextAt<B, D>(sv: TextServices<B, D>, source: (string, string), destination: (string, string)): (r: TextResult<D>)
    ensures r.TextExtracted? <==>
      sv.download(source.0, source.1).Some? &&
      sv.analyse(sv.download(source.0, source.1).value).Some? &&
      sv.upload(destination.0, destination.1, sv.analyse(sv.download(source.0, source.1).value).value.1)
    ensures r.TextExtracted? ==>
      sv.analyse(sv.download(source.0, source.1).value) == Some((r.analysis, r.content))
  {
    match sv.download(source.0, source.1)
    case None => TextRaised
    case Some(document) =>
      match sv.analyse(document)
      case None => TextRaised
      case Some((analysis, content)) =>
        if sv.upload(destination.0, destination.1, content) then TextExtracted(analysis, content)
        else TextRaised
  }

  /** `text_extractor`: the input path names the object to fetch and the
      output path, with the artefact name, where its text goes. */
  function ExtractText<B, D>(sv: TextServices<B, D>, inputPath: string, outputPath: string): TextResult<D> {
    ExtractTextAt(sv, ParseS3Path(inputPath), TextDestination(inputPath, outputPath))
  }
}
