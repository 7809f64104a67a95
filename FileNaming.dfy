/**
 * The file-name side of TFRecordIO: the compression types with the file extension each one
 * recognises, the channel compression the source and the sink pick for each, and the check
 * that rejects old-style `@N` / `@*` shard patterns in output name components.
 */
module FileNaming {
  import Results

  // ---------------------------------------------------------------------------
  // Case-insensitive suffix test

  /** Lower-cases an ASCII capital letter; every other character is left alone. */
  function LowerChar(c: char): (r: char)
    ensures 'A' <= c <= 'Z' ==> r as int == c as int + ('a' as int - 'A' as int)
    ensures !('A' <= c <= 'Z') ==> r == c
    ensures !('A' <= r <= 'Z')
  {
    if 'A' <= c <= 'Z' then (c as int - 'A' as int + 'a' as int) as char else c
  }

  /**
   * `toLowerCase`, character by character: every capital becomes the letter 32 code points
   * higher, everything else is kept, and no capital is left.
   */
  function ToLower(s: string): (r: string)
    ensures |r| == |s|
    ensures forall i :: 0 <= i < |s| && 'A' <= s[i] <= 'Z' ==> r[i] as int == s[i] as int + 32
    ensures forall i :: 0 <= i < |s| && !('A' <= s[i] <= 'Z') ==> r[i] == s[i]
    ensures forall i :: 0 <= i < |r| ==> !('A' <= r[i] <= 'Z')
  {
    seq(|s|, i requires 0 <= i < |s| => LowerChar(s[i]))
  }

  /** `endsWith`: the last |suffix| characters of `s` are `suffix`. */
  predicate EndsWith(s: string, suffix: string)
    ensures EndsWith(s, suffix) ==> |suffix| <= |s|
    ensures suffix == [] ==> EndsWith(s, suffix)
  {
    |suffix| <= |s| && s[|s| - |suffix|..] == suffix
  }

  /** `s` ends with `suffix` exactly when `s` is some stem followed by `suffix`. */
  lemma EndsWithIsStemPlusSuffix(s: string, suffix: string)
    ensures EndsWith(s, suffix) <==> exists stem :: s == stem + suffix
  {
    if EndsWith(s, suffix) {
      assert s == s[..|s| - |suffix|] + suffix;
    }
    if exists stem :: s == stem + suffix {
      var stem :| s == stem + suffix;
      assert s[|s| - |suffix|..] == suffix;
    }
  }

  /** Lower-casing is idempotent. */
  lemma ToLowerIdempotent(s: string)
    ensures ToLower(ToLower(s)) == ToLower(s)
  {
  }

  /** Lower-casing works piece by piece: it distributes over concatenation. */
  lemma ToLowerAppend(a: string, b: string)
    ensures ToLower(a + b) == ToLower(a) + ToLower(b)
  {
  }

  // ---------------------------------------------------------------------------
  // Compression types

  /** `TFRecordIO.CompressionType`. */
  datatype CompressionType = Auto | None | Gzip | Zlib
  {
    /** The file extension the type recognises: empty for AUTO and NONE. */
    function FilenameSuffix(): (r: string)
      ensures r == [] <==> this == Auto || this == None
    {
      match this
      case Auto => ""
      case None => ""
      case Gzip => ".gz"
      case Zlib => ".zlib"
    }

    /** `matches`: the lower-cased name ends with the lower-cased extension. */
    predicate Matches(filename: string)
      ensures FilenameSuffix() == "" ==> Matches(filename)
    {
      EndsWith(ToLower(filename), ToLower(FilenameSuffix()))
    }
  }

  /**
   * `matches(f)` holds exactly when `f`, lower-cased, is some stem followed by the
   * extension, lower-cased; AUTO and NONE, whose extension is empty, match every name.
   */
  lemma MatchesIffLowerStem(t: CompressionType, filename: string)
    ensures t.Matches(filename) <==> exists stem :: ToLower(filename) == stem + ToLower(t.FilenameSuffix())
    ensures t == Auto || t == None ==> t.Matches(filename)
  {
    EndsWithIsStemPlusSuffix(ToLower(filename), ToLower(t.FilenameSuffix()));
  }

  /** Any name built by appending a type's extension, in any letter case, matches that type. */
  lemma StemPlusSuffixMatches(t: CompressionType, stem: string, ext: string)
    requires ToLower(ext) == ToLower(t.FilenameSuffix())
    ensures t.Matches(stem + ext)
  {
    ToLowerAppend(stem, ext);
    EndsWithIsStemPlusSuffix(ToLower(stem + ext), ToLower(t.FilenameSuffix()));
  }

  /** A GZIP file name never matches ZLIB and a ZLIB file name never matches GZIP. */
  lemma GzipAndZlibExclusive(filename: string)
    ensures !(Gzip.Matches(filename) && Zlib.Matches(filename))
  {
    // Both would fix the last lower-cased character: 'z' for ".gz", 'b' for ".zlib".
    var gz, zlib := ToLower(Gzip.FilenameSuffix()), ToLower(Zlib.FilenameSuffix());
    assert gz[|gz| - 1] == 'z' && zlib[|zlib| - 1] == 'b';
    if Gzip.Matches(filename) {
      LastOfEndsWith(ToLower(filename), gz);
    }
    if Zlib.Matches(filename) {
      LastOfEndsWith(ToLower(filename), zlib);
    }
  }

  /** A string that ends with a non-empty suffix ends with the suffix's last character. */
  lemma LastOfEndsWith(s: string, suffix: string)
    requires EndsWith(s, suffix) && suffix != []
    ensures s[|s| - 1] == suffix[|suffix| - 1]
  {
    assert s[|s| - 1] == s[|s| - |suffix|..][|suffix| - 1];
  }

  // ---------------------------------------------------------------------------
  // Channel compression chosen for a compression type

  /** The compression of the channel the sink writes through. */
  datatype SinkCompression = Uncompressed | GzipSink | DeflateSink

  /** The decompression of the source a read is given. */
  datatype SourceDecompression = Plain | DetectFromExtension | GzipSource | DeflateSource

  /** IllegalArgumentException, with its message. */
  datatype IllegalArgument = IllegalArgument(message: string)

  /**
   * `writableByteChannelFactory`: NONE, GZIP and ZLIB write uncompressed, gzip and deflate
   * channels; AUTO cannot be written and is rejected.
   */
  function WritableByteChannelFactory(t: CompressionType): (r: Results.Result<SinkCompression, IllegalArgument>)
    ensures r.Failure? <==> t == Auto
    ensures r.Failure? ==> r.error.message == "Unsupported compression type AUTO"
  {
    match t
    case Auto => Results.Failure(IllegalArgument("Unsupported compression type AUTO"))
    case None => Results.Success(Uncompressed)
    case Gzip => Results.Success(GzipSink)
    case Zlib => Results.Success(DeflateSink)
  }

  /** `getSource`: the decompression a read with the given compression type uses. */
  function SourceFor(t: CompressionType): (r: SourceDecompression)
    ensures r == DetectFromExtension <==> t == Auto
  {
    match t
    case None => Plain
    case Auto => DetectFromExtension
    case Gzip => GzipSource
    case Zlib => DeflateSource
  }

  /** The decompression that undoes a sink compression. */
  function Undoes(c: SinkCompression): SourceDecompression
  {
    match c
    case Uncompressed => Plain
    case GzipSink => GzipSource
    case DeflateSink => DeflateSource
  }

  /**
   * Files written with a compression type are read back, with the same type, through the
   * matching decompression; and each writable type picks a different channel compression.
   */
  lemma SinkAndSourceAgree(t: CompressionType, u: CompressionType)
    requires t != Auto && u != Auto
    ensures WritableByteChannelFactory(t).Success?
    ensures SourceFor(t) == Undoes(WritableByteChannelFactory(t).value)
    ensures WritableByteChannelFactory(t) == WritableByteChannelFactory(u) ==> t == u
  {
  }

  // ---------------------------------------------------------------------------
  // Old-style shard patterns

  /** An ASCII digit, as `[0-9]` matches it. */
  predicate IsDigit(c: char)
  {
    '0' <= c <= '9'
  }

  /** `s[i..j]` is a match of `@([0-9]+|\*)`: an `@` then one or more digits, or an `@` then `*`. */
  predicate ShardPatternAt(s: string, i: nat, j: nat)
  {
    i + 2 <= j <= |s| && s[i] == '@'
    && ((j == i + 2 && s[i + 1] == '*') || forall k :: i + 1 <= k < j ==> IsDigit(s[k]))
  }

  /** `Pattern.find` succeeds: some substring of `s` matches `@([0-9]+|\*)`. */
  ghost predicate FindsShardPattern(s: string)
  {
    exists i: nat, j: nat :: ShardPatternAt(s, i, j)
  }

  /** Scans `s` for an `@` immediately followed by a digit or `*`. */
  predicate HasShardMarker(s: string)
    ensures HasShardMarker(s) ==> |s| >= 2 && '@' in s
    decreases |s|
  {
    |s| >= 2 && ((s[0] == '@' && (IsDigit(s[1]) || s[1] == '*')) || HasShardMarker(s[1..]))
  }

  /** The scan finds a marker exactly where the pattern finds a match: a match needs only its first two characters. */
  lemma {:induction false} HasShardMarkerIffFinds(s: string)
    ensures HasShardMarker(s) <==> FindsShardPattern(s)
    decreases |s|
  {
    if |s| >= 2 {
      HasShardMarkerIffFinds(s[1..]);
      if s[0] == '@' && (IsDigit(s[1]) || s[1] == '*') {
        assert ShardPatternAt(s, 0, 2);
      } else if HasShardMarker(s[1..]) {
        var i: nat, j: nat :| ShardPatternAt(s[1..], i, j);
        assert ShardPatternAt(s, i + 1, j + 1);
      }
      if FindsShardPattern(s) {
        var i: nat, j: nat :| ShardPatternAt(s, i, j);
        if i == 0 {
          assert IsDigit(s[1]) || s[1] == '*';
        } else {
          assert ShardPatternAt(s[1..], i - 1, j - 1);
        }
      }
    }
  }

  /**
   * `validateOutputComponent`: rejects a file name prefix or extension that contains an
   * old-style `@N` or `@*` shard pattern, naming it in the message.
   */
  function ValidateOutputComponent(partialFilePattern: string): (r: Results.Result<(), IllegalArgument>)
    ensures r.Failure? <==> FindsShardPattern(partialFilePattern)
    ensures r.Failure? ==>
      r.error.message == "Output name components are not allowed to contain @* or @N patterns: " + partialFilePattern
  {
    HasShardMarkerIffFinds(partialFilePattern);
    if HasShardMarker(partialFilePattern) then
      Results.Failure(IllegalArgument("Output name components are not allowed to contain @* or @N patterns: " + partialFilePattern))
    else
      Results.Success(())
  }
}
