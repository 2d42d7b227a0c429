/** The metadata extractor: filling the prompt, cutting the JSON block out
    of the model's reply, naming the `.json` artefact, and the rule that
    every failure yields `None`. The prompt file, the chat model, the JSON
    parser and the storage service are parameters. */
module MetadataExtractor {
  import opened Common
  import opened PyStrings
  import opened PosixPath
  import opened TextExtractor

  const Placeholder: string := "{document}"
  const JsonMarker: string := "```json"
  const Fence: string := "```"

  /** `metadata_extractor`'s user message: the template with every `{document}` replaced by the
      document's text. */
  function UserPrompt(template: string, content: string): string {
    Replace(template, Placeholder, content)
  }

  /** A template without the placeholder is sent unchanged. */
  lemma PromptWithoutPlaceholder(template: string, content: string)
    requires !Contains(template, Placeholder)
    ensures UserPrompt(template, content) == template
  {
    ReplaceAbsent(template, Placeholder, content);
  }

  /** Every placeholder is filled: the template pieces between the
      placeholders come out joined by the content. */
  lemma PromptFillsEveryPlaceholder(pieces: seq<string>, content: string)
    requires forall i :: 0 <= i < |pieces| ==> !Contains(pieces[i], Placeholder)
    ensures UserPrompt(Join(Placeholder, pieces), content) == Join(content, pieces)
  {
    HeadUniqueUnbordered(Placeholder);
    ReplaceJoin(pieces, Placeholder, content);
  }

  /** `metadata_extractor`'s first slice: the reply from just after the first `` ```json `` on. The
      `find` result `-1` plus 7 makes this start at index 6 when there is
      no marker. */
  function AfterMarker(reply: string): string {
    SliceFrom(reply, Find(reply, JsonMarker) + 7)
  }

  /** `metadata_extractor`'s second slice: the text up to the first `` ``` ``. The `find` result `-1`
      makes this `[:-1]`, dropping the last character, when there is none. */
  function BeforeFence(s: string): string {
    SliceTo(s, Find(s, Fence))
  }

  /** Both slices of `metadata_extractor`: the text handed to the JSON parser. It is always a
      contiguous piece of the reply. */
  function ExtractJsonBlock(reply: string): (block: string)
    ensures |block| <= |reply|
    ensures Contains(reply, block)
  {
    var start := SliceBound(Find(reply, JsonMarker) + 7, |reply|);
    var block := BeforeFence(AfterMarker(reply));
    assert reply[start..start + |block|] == block;
    assert OccursAt(reply, block, start);
    block
  }

  /** The marker overlaps itself nowhere. */
  lemma MarkerUnbordered()
    ensures Unbordered(JsonMarker)
  {
    forall k | 0 < k < |JsonMarker|
      ensures JsonMarker[k..] != JsonMarker[..|JsonMarker| - k]
    {
      assert JsonMarker[k..][6 - k] == 'n';
      assert JsonMarker[..|JsonMarker| - k][6 - k] == JsonMarker[6 - k];
    }
  }

  /** The first fence after a text without fences is the one that follows
      it, provided the text does not end in a backtick (which would start
      a fence one or two characters earlier). */
  lemma FirstFence(body: string, q: string)
    requires !Contains(body, Fence)
    requires body == [] || body[|body| - 1] != '`'
    ensures Find(body + Fence + q, Fence) == |body|
  {
    var s := body + Fence + q;
    assert s[|body|..|body| + 3] == Fence;
    forall j | 0 <= j < |body|
      ensures !OccursAt(s, Fence, j)
    {
      if j + 3 <= |body| {
        assert s[..|body|] == body;
        OccursAtPrefix(s, Fence, |body|, j);
      } else {
        assert s[j..j + 3][|body| - 1 - j] == s[|body| - 1] == body[|body| - 1];
      }
    }
    var r := Find(s, Fence);
    assert OccursAt(s, Fence, |body|);
    assert !(r < |body|);
    assert !(r > |body|);
  }

  /** The first fence of a text never follows a backtick (that backtick
      would start an earlier fence), so the backtick condition of
      `ExtractFencedBlock` holds for the body in front of the first fence. */
  lemma FirstFenceNotAfterBacktick(t: string)
    requires Find(t, Fence) > 0
    ensures t[Find(t, Fence) - 1] != '`'
  {
    var f := Find(t, Fence);
    if t[f - 1] == '`' {
      assert t[f..f + 3] == Fence;
      assert t[f] == '`' && t[f + 1] == '`';
      assert t[f - 1..f + 2] == [t[f - 1], t[f], t[f + 1]];
      assert OccursAt(t, Fence, f - 1);
      assert false;
    }
  }

  /** A reply `p + "```json" + body + "```" + q` yields `body`, when `p` has
      no marker, `body` has no fence and `body` does not end in a backtick. */
  lemma ExtractFencedBlock(p: string, body: string, q: string)
    requires !Contains(p, JsonMarker)
    requires !Contains(body, Fence)
    requires body == [] || body[|body| - 1] != '`'
    ensures ExtractJsonBlock(p + JsonMarker + body + Fence + q) == body
  {
    var tail := body + Fence + q;
    var reply := p + JsonMarker + tail;
    assert p + JsonMarker + body + Fence + q == reply;
    MarkerUnbordered();
    FirstOccurrence(p, JsonMarker, tail);
    assert reply[|p| + 7..] == tail;
    FirstFence(body, q);
    assert tail[..|body|] == body;
  }

  /** The backtick condition is needed: a body that ends in one backtick
      has no fence of its own, yet loses that backtick, because the
      closing fence is found one character early. */
  lemma ExtractLosesTrailingBacktick(p: string, body: string, q: string)
    requires !Contains(p, JsonMarker)
    requires !Contains(body, Fence)
    requires body == [] || body[|body| - 1] != '`'
    ensures ExtractJsonBlock(p + JsonMarker + (body + "`") + Fence + q) == body
  {
    assert p + JsonMarker + (body + "`") + Fence + q == p + JsonMarker + body + Fence + ("`" + q);
    ExtractFencedBlock(p, body, "`" + q);
  }

  /** Without a marker the first six characters are dropped; the reply is
      not discarded. */
  lemma NoMarkerDropsSix(reply: string)
    requires !Contains(reply, JsonMarker)
    ensures AfterMarker(reply) == if |reply| <= 6 then [] else reply[6..]
  {
  }

  /** With a marker, the first slice starts right after it: whatever
      follows the first `` ```json `` is kept whole. */
  lemma AfterMarkerOf(p: string, t: string)
    requires !Contains(p, JsonMarker)
    ensures AfterMarker(p + JsonMarker + t) == t
  {
    MarkerUnbordered();
    FirstOccurrence(p, JsonMarker, t);
    assert (p + JsonMarker + t)[|p| + 7..] == t;
  }

  /** A block opened by the marker but never closed reaches the parser
      without its last character. */
  lemma UnclosedMarker(p: string, t: string)
    requires !Contains(p, JsonMarker) && !Contains(t, Fence)
    ensures ExtractJsonBlock(p + JsonMarker + t) == if t == [] then [] else t[..|t| - 1]
  {
    AfterMarkerOf(p, t);
    NoFenceDropsLast(t);
  }

  /** Without a closing fence the last character is dropped. */
  lemma NoFenceDropsLast(s: string)
    requires !Contains(s, Fence)
    ensures BeforeFence(s) == if s == [] then [] else s[..|s| - 1]
  {
  }

  /** A reply without any fence reaches the parser as `reply[6:-1]`. */
  lemma UnfencedReply(reply: string)
    requires !Contains(reply, Fence)
    requires |reply| > 6
    ensures ExtractJsonBlock(reply) == reply[6..|reply| - 1]
  {
    assert !Contains(reply, JsonMarker) by {
      forall j | 0 <= j
        ensures !OccursAt(reply, JsonMarker, j)
      {
        assert !OccursAt(reply, Fence, j);
        if j + 7 <= |reply| {
          assert reply[j..j + 7][..3] == reply[j..j + 3];
          assert JsonMarker[..3] == Fence;
        }
      }
    }
    NoMarkerDropsSix(reply);
    var rest := reply[6..];
    assert !Contains(rest, Fence) by {
      forall j: nat
        ensures !OccursAt(rest, Fence, j)
      {
        OccursAtSuffix(reply, Fence, 6, j);
      }
    }
    NoFenceDropsLast(rest);
  }

  /** `metadata_extractor`'s `split("/", 1)` of the destination with every `s3://`
      removed, unpacked into bucket and prefix. Without a `/` the unpacking
      raises, which is `None` here. */
  function MetadataDestination(outputPath: string): (r: Option<(string, string)>)
    ensures r.None? <==> '/' !in Replace(outputPath, S3Scheme, "")
    ensures r.Some? ==> '/' !in r.value.0
    ensures r.Some? ==> r.value.0 + "/" + r.value.1 == Replace(outputPath, S3Scheme, "")
  {
    var parts := SplitOnce(Replace(outputPath, S3Scheme, ""), '/');
    if |parts| == 2 then Some((parts[0], parts[1])) else None
  }

  /** Where the unpacking succeeds it agrees with `parse_s3_path`. */
  lemma MetadataDestinationIsParse(outputPath: string)
    requires MetadataDestination(outputPath).Some?
    ensures MetadataDestination(outputPath).value == ParseS3Path(outputPath)
  {
    ParseS3PathSplitsOnce(outputPath);
  }

  /** Round trip: `s3://bucket/prefix` gives back bucket and prefix. */
  lemma MetadataDestinationOfClean(bucket: string, prefix: string)
    requires '/' !in bucket
    requires !Contains(bucket + "/" + prefix, S3Scheme)
    ensures MetadataDestination(S3Scheme + bucket + "/" + prefix) == Some((bucket, prefix))
  {
    var rest := bucket + "/" + prefix;
    assert S3Scheme + bucket + "/" + prefix == S3Scheme + rest;
    StripScheme(rest);
    assert rest[|bucket|] == '/';
    var r := MetadataDestination(S3Scheme + bucket + "/" + prefix);
    SplitPointUnique(r.value.0, r.value.1, bucket, prefix, '/');
  }

  /** The name `metadata_extractor` gives the metadata artefact. It has no
      `/`, ends in `.json`, and in front of `.json` stands the basename of
      the file name with the extension `splitext` found removed. */
  function MetadataFileName(fileName: string): (name: string)
    ensures '/' !in name
    ensures EndsWith(name, ".json")
    ensures name[..|name| - 5] + SplitExt(Basename(fileName)).1 == Basename(fileName)
  {
    ArtefactName(fileName, ".json")
  }

  /** A file name that is dots followed by dot-free text keeps all of it:
      `.pdf` gives `.pdf.json`. */
  lemma MetadataFileNameOfLeadingDots(d: string, e: string)
    requires AllDots(d) && '.' !in e && '/' !in d + e
    ensures MetadataFileName(d + e) == d + e + ".json"
  {
    BasenameOfName(d + e);
    SplitExtOfLeadingDots(d, e);
  }

  /** The key `metadata_extractor` stores the metadata artefact under: its
      basename is the artefact name and it lies directly under `prefix/`,
      so it is exactly `prefix + "/" + name`. */
  function MetadataKey(prefix: string, fileName: string): (key: string)
    ensures Basename(key) == MetadataFileName(fileName)
    ensures |key| > |prefix| && key[..|prefix| + 1] == prefix + "/"
    ensures |key| == |prefix| + 1 + |MetadataFileName(fileName)|
  {
    var name := MetadataFileName(fileName);
    BasenameOfChild(prefix, name);
    assert (prefix + "/" + name)[..|prefix| + 1] == prefix + "/";
    prefix + "/" + name
  }

  /** The prompt file, the chat model, the JSON parser and the storage
      service `metadata_extractor` uses, as parameters. `None`/`false` is
      an exception. */
  datatype MetadataServices<!J> = MetadataServices(
    promptTemplate: Option<string>,
    complete: string -> Option<string>,
    parseJson: string -> Option<J>,
    upload: (string, string, J) -> bool)

  /** `metadata_extractor`: any failure — reading the prompt, the model
      call, parsing, unpacking the destination, storing — yields `None`;
      otherwise the parsed value, which is what was stored under
      `MetadataKey`. */
  function ExtractMetadata<J>(sv: MetadataServices<J>, content: string, outputPath: string, fileName: string): (r: Option<J>)
    ensures r.Some? <==>
      sv.promptTemplate.Some? &&
      var reply := sv.complete(UserPrompt(sv.promptTemplate.value, content));
      reply.Some? && sv.parseJson(ExtractJsonBlock(reply.value)).Some? &&
      var destination := MetadataDestination(outputPath);
      destination.Some? &&
      sv.upload(destination.value.0, MetadataKey(destination.value.1, fileName), sv.parseJson(ExtractJsonBlock(reply.value)).value)
    ensures r.Some? ==>
      r == sv.parseJson(ExtractJsonBlock(sv.complete(UserPrompt(sv.promptTemplate.value, content)).value))
  {
    match sv.promptTemplate
    case None => None
    case Some(template) =>
      match sv.complete(UserPrompt(template, content))
      case None => None
      case Some(reply) =>
        match sv.parseJson(ExtractJsonBlock(reply))
        case None => None
        case Some(metadata) =>
          match MetadataDestination(outputPath)
          case None => None
          case Some((bucket, prefix)) =>
            if sv.upload(bucket, MetadataKey(prefix, fileName), metadata) then Some(metadata) else None
  }
}
