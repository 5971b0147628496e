/** The slave's size-reduction schedule (Nodes/SlaveNode.cs, `ProcessImageRequest`):
    a size-bracket stage chosen from the size of the filtered image, followed by a bounded
    fallback loop. The JPEG encoder is a parameter with no assumed behaviour: nothing here
    presumes that it shrinks its input. */
module Compression {
  import opened Messages

  /** The size the schedule aims for (bytes). */
  const TransportLimit := 40000
  /** The fallback loop's iteration cap. */
  const MaxAttempts := 5

  /** `MedianFilterService.CompressImage(data, quality)`. */
  type Compressor = (seq<Byte>, int) -> seq<Byte>

  /** A bracket's primary quality and the quality of its optional second pass. */
  datatype Tier = Tier(primary: int, secondary: int)

  /** The bracket table, keyed by the size of the filtered output. */
  function BracketFor(size: int): (r: Option<Tier>)
    ensures r.None? <==> size <= 50000
  {
    if size > 2000000 then Some(Tier(25, 15))
    else if size > 1000000 then Some(Tier(30, 20))
    else if size > 500000 then Some(Tier(35, 25))
    else if size > 200000 then Some(Tier(40, 30))
    else if size > 50000 then Some(Tier(55, 40))
    else None
  }

  /** `Math.Max(10, 30 - attempt * 5)`. */
  function FallbackQuality(attempt: int): int
  {
    if 30 - attempt * 5 > 10 then 30 - attempt * 5 else 10
  }

  /** The encoder applied with the given qualities, in order. */
  function Encode(data: seq<Byte>, qualities: seq<int>, compress: Compressor): seq<Byte>
    decreases |qualities|
  {
    if |qualities| == 0 then data
    else Encode(compress(data, qualities[0]), qualities[1..], compress)
  }

  /** The qualities the bracket stage uses on the filtered data: none when it is
      50,000 bytes or less, else the primary, then the secondary if the primary's
      output is still over the limit. */
  function BracketQualities(filtered: seq<Byte>, compress: Compressor): seq<int>
  {
    match BracketFor(|filtered|)
    case None => []
    case Some(tier) =>
      if |compress(filtered, tier.primary)| > TransportLimit then [tier.primary, tier.secondary]
      else [tier.primary]
  }

  /** The qualities the fallback loop uses when entered with `data` after `attempts`
      iterations. */
  function FallbackQualities(data: seq<Byte>, attempts: nat, compress: Compressor): seq<int>
    requires attempts <= MaxAttempts
    decreases MaxAttempts - attempts
  {
    if |data| > TransportLimit && attempts < MaxAttempts then
      var quality := FallbackQuality(attempts + 1);
      [quality] + FallbackQualities(compress(data, quality), attempts + 1, compress)
    else []
  }

  /** Every quality the slave uses on one image, in order. */
  function TransportQualities(filtered: seq<Byte>, compress: Compressor): seq<int>
  {
    var bracket := BracketQualities(filtered, compress);
    bracket + FallbackQualities(Encode(filtered, bracket, compress), 0, compress)
  }

  /** The bytes the slave sends back for a filtered image. */
  function ForTransport(filtered: seq<Byte>, compress: Compressor): seq<Byte>
  {
    Encode(filtered, TransportQualities(filtered, compress), compress)
  }

  /** The compression steps of `ProcessImageRequest` (lines 135-222): the bracket stage,
      then at most five fallback passes while the data exceeds 40,000 bytes. */
  method CompressForTransport(filtered: seq<Byte>, compress: Compressor)
    returns (processedData: seq<Byte>, attempts: int)
    ensures processedData == ForTransport(filtered, compress)
    ensures 0 <= attempts <= MaxAttempts
    ensures |processedData| > TransportLimit ==> attempts == MaxAttempts
    ensures attempts == |TransportQualities(filtered, compress)| - |BracketQualities(filtered, compress)|
  {
    var bracketed := BracketStage(filtered, compress);
    processedData, attempts := FallbackStage(bracketed, compress);
    EncodeAppend(filtered, BracketQualities(filtered, compress),
                 FallbackQualities(bracketed, 0, compress), compress);
  }

  /** The size-bracket stage: the primary quality for the filtered size, and the
      secondary when the primary's output is still over 40,000 bytes. */
  method BracketStage(filtered: seq<Byte>, compress: Compressor) returns (processedData: seq<Byte>)
    ensures processedData == Encode(filtered, BracketQualities(filtered, compress), compress)
  {
    processedData := filtered;
    var originalSize := |processedData|;
    ghost var bracket := BracketQualities(filtered, compress);
    match BracketFor(originalSize) {
      case Some(tier) =>
        processedData := compress(processedData, tier.primary);
        if |processedData| > TransportLimit {
          processedData := compress(processedData, tier.secondary);
          assert bracket == [tier.primary, tier.secondary];
          assert bracket[1..] == [tier.secondary];
          assert [tier.secondary][1..] == [];
          assert Encode(filtered, bracket, compress)
              == Encode(compress(filtered, tier.primary), [tier.secondary], compress)
              == Encode(processedData, [], compress);
        } else {
          assert bracket == [tier.primary];
          assert bracket[1..] == [];
          assert Encode(filtered, bracket, compress) == Encode(processedData, [], compress);
        }
      case None =>
        assert bracket == [];
    }
  }

  /** The fallback loop: while the data exceeds 40,000 bytes and fewer than five passes
      were made, one more pass at the next fallback quality. */
  method FallbackStage(entry: seq<Byte>, compress: Compressor)
    returns (processedData: seq<Byte>, attempts: int)
    ensures processedData == Encode(entry, FallbackQualities(entry, 0, compress), compress)
    ensures attempts == |FallbackQualities(entry, 0, compress)|
    ensures 0 <= attempts <= MaxAttempts
    ensures |processedData| > TransportLimit ==> attempts == MaxAttempts
  {
    processedData := entry;
    ghost var used: seq<int> := [];
    attempts := 0;
    while |processedData| > TransportLimit && attempts < MaxAttempts
      invariant 0 <= attempts <= MaxAttempts && |used| == attempts
      invariant FallbackQualities(entry, 0, compress) == used + FallbackQualities(processedData, attempts, compress)
      invariant Encode(entry, FallbackQualities(entry, 0, compress), compress)
             == Encode(processedData, FallbackQualities(processedData, attempts, compress), compress)
      decreases MaxAttempts - attempts
    {
      ghost var remaining := FallbackQualities(processedData, attempts, compress);
      ghost var previous := processedData;
      attempts := attempts + 1;
      var quality := FallbackQuality(attempts);
      processedData := compress(processedData, quality);
      ghost var rest := FallbackQualities(processedData, attempts, compress);
      assert remaining == [quality] + rest;
      assert remaining[0] == quality && remaining[1..] == rest;
      assert Encode(previous, remaining, compress) == Encode(processedData, rest, compress);
      AppendAssociates(used, [quality], rest);
      used := used + [quality];
    }
  }

  /** Applying two runs of qualities is applying their concatenation. */
  lemma {:induction false} EncodeAppend(data: seq<Byte>, a: seq<int>, b: seq<int>, compress: Compressor)
    decreases |a|
    ensures Encode(data, a + b, compress) == Encode(Encode(data, a, compress), b, compress)
  {
    if |a| == 0 {
      assert a + b == b;
    } else {
      assert (a + b)[0] == a[0];
      assert (a + b)[1..] == a[1..] + b;
      EncodeAppend(compress(data, a[0]), a[1..], b, compress);
    }
  }

  /** Larger filtered images get lower (or equal) qualities in both passes. */
  lemma LargerImagesCompressHarder(small: int, large: int)
    requires small <= large && BracketFor(small).Some?
    ensures BracketFor(large).Some?
    ensures BracketFor(large).value.primary <= BracketFor(small).value.primary
    ensures BracketFor(large).value.secondary <= BracketFor(small).value.secondary
    ensures BracketFor(large).value.secondary < BracketFor(large).value.primary
  {
  }

  /** The bracket stage is chosen from the filtered size alone: its first quality is the
      table's primary for that size, the secondary runs exactly when the primary's output
      exceeds 40,000 bytes, and a filtered image of 50,000 bytes or less skips the stage. */
  lemma BracketStageFollowsTable(filtered: seq<Byte>, compress: Compressor)
    ensures var q := BracketQualities(filtered, compress);
      && (|filtered| <= 50000 <==> q == [])
      && (q != [] ==> q[0] == BracketFor(|filtered|).value.primary)
      && (|q| == 2 <==> q != [] && |compress(filtered, q[0])| > TransportLimit)
      && (|q| == 2 ==> q[1] == BracketFor(|filtered|).value.secondary)
      && |q| <= 2
  {
  }

  /** The fallback's n-th pass uses the quality for attempt n: entered after `attempts`
      passes, its qualities are those of the following attempts, in order. */
  lemma {:induction false} FallbackQualitiesAre(data: seq<Byte>, attempts: nat, compress: Compressor)
    requires attempts <= MaxAttempts
    decreases MaxAttempts - attempts
    ensures var q := FallbackQualities(data, attempts, compress);
      && |q| <= MaxAttempts - attempts
      && forall i :: 0 <= i < |q| ==> q[i] == FallbackQuality(attempts + 1 + i)
  {
    if |data| > TransportLimit && attempts < MaxAttempts {
      var quality := FallbackQuality(attempts + 1);
      FallbackQualitiesAre(compress(data, quality), attempts + 1, compress);
    }
  }

  /** The fallback loop uses qualities 25, 20, 15, 10, 10 (a prefix of them), runs only
      while the data exceeds 40,000 bytes, and ends with the data within the limit or
      after all five passes. */
  lemma FallbackSchedule(data: seq<Byte>, compress: Compressor)
    ensures var q := FallbackQualities(data, 0, compress);
      && |q| <= 5 && q == [25, 20, 15, 10, 10][..|q|]
      && (q == [] <==> |data| <= TransportLimit)
      && (|Encode(data, q, compress)| <= TransportLimit || |q| == MaxAttempts)
  {
    var q := FallbackQualities(data, 0, compress);
    FallbackQualitiesAre(data, 0, compress);
    assert q == [25, 20, 15, 10, 10][..|q|];
    FallbackEnds(data, 0, compress);
  }

  /** Where the fallback stops: within the limit, or with the attempts used up. */
  lemma {:induction false} FallbackEnds(data: seq<Byte>, attempts: nat, compress: Compressor)
    requires attempts <= MaxAttempts
    decreases MaxAttempts - attempts
    ensures var q := FallbackQualities(data, attempts, compress);
      |Encode(data, q, compress)| <= TransportLimit || attempts + |q| == MaxAttempts
  {
    if |data| > TransportLimit && attempts < MaxAttempts {
      FallbackEnds(compress(data, FallbackQuality(attempts + 1)), attempts + 1, compress);
    }
  }

  /** One image costs at most seven encoder calls: two in the bracket stage, five in
      the fallback. */
  lemma AtMostSevenCompressions(filtered: seq<Byte>, compress: Compressor)
    ensures |TransportQualities(filtered, compress)| <= 7
  {
    var bracket := BracketQualities(filtered, compress);
    FallbackQualitiesAre(Encode(filtered, bracket, compress), 0, compress);
  }

  /** The result is the encoder applied with the transport qualities; it is within
      40,000 bytes unless the fallback used all five passes, and it is produced whatever
      its size (an oversized result is only reported, never cut). */
  lemma TransportResult(filtered: seq<Byte>, compress: Compressor)
    ensures var bracket := BracketQualities(filtered, compress);
      var fallback := FallbackQualities(Encode(filtered, bracket, compress), 0, compress);
      && TransportQualities(filtered, compress) == bracket + fallback
      && ForTransport(filtered, compress)
         == Encode(Encode(filtered, bracket, compress), fallback, compress)
      && (|ForTransport(filtered, compress)| <= TransportLimit || |fallback| == MaxAttempts)
  {
    var bracket := BracketQualities(filtered, compress);
    var fallback := FallbackQualities(Encode(filtered, bracket, compress), 0, compress);
    EncodeAppend(filtered, bracket, fallback, compress);
    FallbackSchedule(Encode(filtered, bracket, compress), compress);
  }
}
