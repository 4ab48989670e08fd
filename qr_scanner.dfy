/**
 * The webcam scanner of `barcode-detect/barcode.py`, without the camera:
 * the decoded payloads of each frame are its input. A payload is processed
 * only when it differs from the one remembered last, and a processed payload
 * is turned into a key/value object in one of three ways.
 */
module QrScanner {
  import opened Wrappers
  import opened QrText

  /** The text whose presence marks an ISBN-only payload. */
  const IsbnPrefix := "ISBN: "

  /**
   * The object printed for one payload (lines 56-62): an ISBN-only payload
   * gives its ISBN, a payload with at least one `key: value` line gives the
   * parsed map, and any other payload is passed on whole under "content".
   */
  function OutputFor(raw: string): (r: map<string, string>)
    ensures r != map[]
  {
    var lines := Split(raw, '\n');
    if Contains(raw, IsbnPrefix) && |lines| == 1 then
      var isbn := map["ISBN" := Strip(ReplaceAll(raw, IsbnPrefix, ""))];
      assert "ISBN" in isbn;
      isbn
    else if ParsedFrom(lines) != map[] then ParsedFrom(lines)
    else
      var whole := map["content" := raw];
      assert "content" in whole;
      whole
  }

  /** Processing one payload (lines 47-62): parse it line by line, then choose the output. */
  method Describe(raw: string) returns (output: map<string, string>)
    ensures output == OutputFor(raw)
  {
    var parsed := ParseKeyValues(raw);
    var lines := Split(raw, '\n');
    if Contains(raw, IsbnPrefix) && |lines| == 1 {
      output := map["ISBN" := Strip(ReplaceAll(raw, IsbnPrefix, ""))];
    } else if parsed != map[] {
      output := parsed;
    } else {
      output := map["content" := raw];
    }
  }

  /** A one-line payload holding "ISBN: " gives its text with every "ISBN: " removed, stripped. */
  lemma IsbnOnlyPayload(raw: string)
    requires Contains(raw, IsbnPrefix) && '\n' !in raw
    ensures OutputFor(raw) == map["ISBN" := Strip(ReplaceAll(raw, IsbnPrefix, ""))]
  {
    OneLineExactly(raw, '\n');
  }

  /** A payload that is not ISBN-only and has a `key: value` line gives the parsed map. */
  lemma ParsedPayload(raw: string, j: nat)
    requires !Contains(raw, IsbnPrefix) || '\n' in raw
    requires j < |Split(raw, '\n')| && ':' in Split(raw, '\n')[j]
    ensures OutputFor(raw) == ParsedFrom(Split(raw, '\n'))
  {
    OneLineExactly(raw, '\n');
    SomethingParsedFromAColon(Split(raw, '\n'), j);
  }

  /** A text holding "ISBN: " holds a colon. */
  lemma IsbnPrefixHasAColon(raw: string)
    requires Contains(raw, IsbnPrefix)
    ensures ':' in raw
  {
    var i :| 0 <= i <= |raw| - |IsbnPrefix| && OccursAt(raw, IsbnPrefix, i);
    assert raw[i + 4] == raw[i..i + 6][4] == ':';
  }

  /** A payload without any colon is passed on whole. */
  lemma ColonFreePayload(raw: string)
    requires ':' !in raw
    ensures OutputFor(raw) == map["content" := raw]
  {
    if Contains(raw, IsbnPrefix) {
      IsbnPrefixHasAColon(raw);
    }
    SplitKeepsAbsence(raw, '\n', ':');
    NothingParsedWithoutColons(Split(raw, '\n'));
  }

  /** The payloads of all frames, frame after frame, in decoding order. */
  function Flatten<T>(frames: seq<seq<T>>): seq<T>
  {
    if frames == [] then [] else Flatten(frames[..|frames| - 1]) + frames[|frames| - 1]
  }

  /**
   * The payloads that get processed (lines 41-42): each one that differs from
   * its predecessor. The first always does, as nothing is remembered yet.
   */
  function Processed<T(==)>(payloads: seq<T>): (r: seq<T>)
    ensures |r| <= |payloads|
    ensures payloads != [] ==> r != [] && r[|r| - 1] == payloads[|payloads| - 1]
    ensures forall i :: 0 < i < |r| ==> r[i - 1] != r[i]
  {
    if payloads == [] then []
    else
      var before := payloads[..|payloads| - 1];
      var p := payloads[|payloads| - 1];
      if before != [] && before[|before| - 1] == p then Processed(before)
      else Processed(before) + [p]
  }

  /** Extending the payloads by one processes it exactly when it differs from the last one. */
  lemma ProcessedOneMore<T>(payloads: seq<T>, p: T)
    ensures payloads != [] && payloads[|payloads| - 1] == p ==> Processed(payloads + [p]) == Processed(payloads)
    ensures payloads == [] || payloads[|payloads| - 1] != p ==> Processed(payloads + [p]) == Processed(payloads) + [p]
  {
    assert (payloads + [p])[..|payloads|] == payloads;
  }

  /** Payloads with no repeat next to each other are all processed, in order. */
  lemma {:induction false} NoRepeatsAllProcessed<T>(payloads: seq<T>)
    requires forall i :: 0 < i < |payloads| ==> payloads[i - 1] != payloads[i]
    ensures Processed(payloads) == payloads
  {
    if payloads != [] {
      var before := payloads[..|payloads| - 1];
      NoRepeatsAllProcessed(before);
      assert before + [payloads[|payloads| - 1]] == payloads;
    }
  }

  /** A, B, A is processed in full: only a repeat of the last payload is suppressed. */
  lemma ReturningPayloadIsProcessedAgain<T>(a: T, b: T)
    requires a != b
    ensures Processed([a, b, a]) == [a, b, a]
  {
    NoRepeatsAllProcessed([a, b, a]);
  }

  /** A payload repeated right away is processed once. */
  lemma RepeatIsSuppressed<T>(payloads: seq<T>, p: T)
    ensures Processed(payloads + [p, p]) == Processed(payloads + [p])
  {
    assert payloads + [p, p] == (payloads + [p]) + [p];
    ProcessedOneMore(payloads + [p], p);
  }

  /** The payload remembered after a run, if any payload was seen: the last one. */
  function Remembered<T>(payloads: seq<T>): Option<T>
  {
    if payloads == [] then None else Some(payloads[|payloads| - 1])
  }

  /** The remembered payload is the one processed last. */
  lemma RememberedIsLastProcessed<T>(payloads: seq<T>)
    requires payloads != []
    ensures Remembered(payloads) == Some(Processed(payloads)[|Processed(payloads)| - 1])
  {
  }

  /** One more frame adds its payloads at the end. */
  lemma FlattenOneMore<T>(frames: seq<seq<T>>, f: nat)
    requires f < |frames|
    ensures Flatten(frames[..f + 1]) == Flatten(frames[..f]) + frames[f]
  {
    assert frames[..f + 1][..f] == frames[..f];
  }

  /** One more payload of the current frame is seen. */
  lemma SeenOneMore<T>(earlier: seq<T>, objects: seq<T>, k: nat)
    requires k < |objects|
    ensures earlier + objects[..k + 1] == (earlier + objects[..k]) + [objects[k]]
  {
    assert objects[..k + 1] == objects[..k] + [objects[k]];
  }

  /** The prefix of full length is the whole sequence. */
  lemma AllOf<T>(s: seq<T>)
    ensures s[..|s|] == s
  {
  }

  /**
   * The scanning loop (lines 22-66) over the payloads decoded in each frame:
   * what it processed, the objects it printed for them, and the payload it
   * remembers at the end.
   */
  method Scan(frames: seq<seq<string>>) returns (processed: seq<string>, outputs: seq<map<string, string>>, detected: Option<string>)
    ensures processed == Processed(Flatten(frames))
    ensures |outputs| == |processed|
    ensures forall i :: 0 <= i < |outputs| ==> outputs[i] == OutputFor(processed[i])
    ensures detected == Remembered(Flatten(frames))
  {
    processed, outputs, detected := [], [], None;
    ghost var seen: seq<string> := [];
    for f := 0 to |frames|
      invariant seen == Flatten(frames[..f])
      invariant processed == Processed(seen) && detected == Remembered(seen)
      invariant |outputs| == |processed|
      invariant forall i :: 0 <= i < |outputs| ==> outputs[i] == OutputFor(processed[i])
    {
      var objects := frames[f];
      FlattenOneMore(frames, f);
      for k := 0 to |objects|
        invariant seen == Flatten(frames[..f]) + objects[..k]
        invariant processed == Processed(seen) && detected == Remembered(seen)
        invariant |outputs| == |processed|
        invariant forall i :: 0 <= i < |outputs| ==> outputs[i] == OutputFor(processed[i])
      {
        var raw := objects[k];
        ProcessedOneMore(seen, raw);
        SeenOneMore(Flatten(frames[..f]), objects, k);
        seen := seen + [raw];
        if detected != Some(raw) {
          detected := Some(raw);
          var output := Describe(raw);
          processed := processed + [raw];
          outputs := outputs + [output];
        }
      }
      AllOf(objects);
    }
    AllOf(frames);
  }
}
