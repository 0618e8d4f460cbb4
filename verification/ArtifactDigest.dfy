/**
 * The byte stream `clientArtifactDigest` of scripts/client-build-environment.ts
 * feeds to its hash, and why it determines the artifacts.
 */
module ArtifactDigest {
  import opened Prelude

  type Byte = b: int | 0 <= b < 256

  const COLON: Byte := 58
  const ZERO: Byte := 48

  /** A path in UTF-8 and the file's bytes. */
  datatype File = File(path: seq<Byte>, content: seq<Byte>)

  datatype ArtifactDigest = ArtifactDigest(fileCount: nat, sha256: string)

  datatype Error = NoArtifacts

  /** The decimal text of a length. */
  function Decimal(n: nat): (r: seq<Byte>)
    ensures r != [] && forall i | 0 <= i < |r| :: ZERO <= r[i] <= ZERO + 9
  {
    if n < 10 then [ZERO + n] else Decimal(n / 10) + [ZERO + n % 10]
  }

  /** A length, a colon, and that many bytes. */
  function Frame(bytes: seq<Byte>): seq<Byte> {
    Decimal(|bytes|) + [COLON] + bytes
  }

  function Entry(file: File): seq<Byte> {
    Frame(file.path) + Frame(file.content)
  }

  function Encode(files: seq<File>): seq<Byte> {
    if files == [] then [] else Entry(files[0]) + Encode(files[1..])
  }

  lemma Associate(a: seq<Byte>, b: seq<Byte>, c: seq<Byte>)
    ensures a + b + c == a + (b + c)
  {
  }

  // ---- A decoder ----

  function Value(digits: seq<Byte>): int {
    if digits == [] then 0 else 10 * Value(digits[..|digits| - 1]) + (digits[|digits| - 1] - ZERO)
  }

  /** The position of the first colon, or the length if there is none. */
  function FirstColon(s: seq<Byte>): (i: nat)
    ensures i <= |s|
    ensures forall k | 0 <= k < i :: s[k] != COLON
    ensures i < |s| ==> s[i] == COLON
  {
    if s == [] || s[0] == COLON then 0 else 1 + FirstColon(s[1..])
  }

  /** The payload of a leading frame and what follows it. */
  function Unframe(s: seq<Byte>): (r: Option<(seq<Byte>, seq<Byte>)>)
    ensures r.Some? ==> |r.value.1| < |s|
  {
    var i := FirstColon(s);
    if i == |s| then None
    else
      var n := Value(s[..i]);
      if n < 0 || Decimal(n) != s[..i] || i + 1 + n > |s| then None
      else Some((s[i + 1..i + 1 + n], s[i + 1 + n..]))
  }

  function Decode(s: seq<Byte>): Option<seq<File>>
    decreases |s|
  {
    if s == [] then Some([])
    else
      var path := Unframe(s);
      if path.None? then None
      else
        var content := Unframe(path.value.1);
        if content.None? then None
        else
          var rest := Decode(content.value.1);
          if rest.None? then None else Some([File(path.value.0, content.value.0)] + rest.value)
  }

  lemma {:induction false} ValueOfDecimal(n: nat)
    ensures Value(Decimal(n)) == n
  {
    if n >= 10 {
      ValueOfDecimal(n / 10);
      assert Decimal(n)[..|Decimal(n)| - 1] == Decimal(n / 10);
    }
  }

  lemma UnframeFrame(bytes: seq<Byte>, rest: seq<Byte>)
    ensures Unframe(Frame(bytes) + rest) == Some((bytes, rest))
  {
    var s, digits := Frame(bytes) + rest, Decimal(|bytes|);
    assert s[..|digits|] == digits && s[|digits|] == COLON;
    assert forall k | 0 <= k < |digits| :: s[k] == digits[k];
    assert FirstColon(s) == |digits|;
    ValueOfDecimal(|bytes|);
    assert s[|digits| + 1..|digits| + 1 + |bytes|] == bytes;
    assert s[|digits| + 1 + |bytes|..] == rest;
  }

  lemma FrameUnframe(s: seq<Byte>)
    requires Unframe(s).Some?
    ensures Frame(Unframe(s).value.0) + Unframe(s).value.1 == s
  {
    var i := FirstColon(s);
    var n := Value(s[..i]);
    assert |s[i + 1..i + 1 + n]| == n;
  }

  /** The decoder undoes the encoding, whatever the bytes are. */
  lemma {:induction false} DecodeEncode(files: seq<File>)
    ensures Decode(Encode(files)) == Some(files)
  {
    if files != [] {
      var rest := Frame(files[0].content) + Encode(files[1..]);
      Associate(Frame(files[0].path), Frame(files[0].content), Encode(files[1..]));
      UnframeFrame(files[0].path, rest);
      UnframeFrame(files[0].content, Encode(files[1..]));
      DecodeEncode(files[1..]);
      assert files == [files[0]] + files[1..];
    }
  }

  /** Whatever the decoder accepts is an encoding. */
  lemma {:induction false} EncodeDecode(s: seq<Byte>)
    requires Decode(s).Some?
    ensures Encode(Decode(s).value) == s
    decreases |s|
  {
    if s != [] {
      var path := Unframe(s).value;
      var content := Unframe(path.1).value;
      FrameUnframe(s);
      FrameUnframe(path.1);
      EncodeDecode(content.1);
      assert Decode(s).value[1..] == Decode(content.1).value;
      Associate(Frame(path.0), Frame(content.0), content.1);
    }
  }

  /** Equal streams come from equal lists of paths and contents. */
  lemma StreamDeterminesFiles(a: seq<File>, b: seq<File>)
    ensures Encode(a) == Encode(b) <==> a == b
  {
    DecodeEncode(a);
    DecodeEncode(b);
  }

  // ---- The stream, byte by byte ----

  /** The ASCII digits of a number, without leading zeros. */
  ghost predicate Spells(digits: seq<Byte>, n: nat) {
    && digits != [] && (forall i | 0 <= i < |digits| :: 48 <= digits[i] <= 57)
    && (digits[0] == 48 ==> |digits| == 1)
    && Horner(digits) == n
  }

  function Horner(digits: seq<Byte>): int {
    if digits == [] then 0 else 10 * Horner(digits[..|digits| - 1]) + (digits[|digits| - 1] as int - 48)
  }

  lemma {:induction false} DecimalSpells(n: nat)
    ensures Spells(Decimal(n), n)
  {
    var digits := Decimal(n);
    if n >= 10 {
      var init := Decimal(n / 10);
      DecimalSpells(n / 10);
      assert digits[..|digits| - 1] == init && digits[0] == init[0];
      assert init[..0] == [];
    } else {
      assert digits[..0] == [];
    }
  }

  /** Each file in turn: the length of its path, a colon, the path, the length of its content, a colon, the content. */
  ghost predicate IsStream(files: seq<File>, stream: seq<Byte>) {
    if files == [] then stream == []
    else
      exists pathDigits, contentDigits, rest: seq<Byte> {:trigger pathDigits + [58 as Byte] + files[0].path + contentDigits + [58 as Byte] + files[0].content + rest} ::
        && Spells(pathDigits, |files[0].path|) && Spells(contentDigits, |files[0].content|)
        && stream == pathDigits + [58 as Byte] + files[0].path + contentDigits + [58 as Byte] + files[0].content + rest
        && IsStream(files[1..], rest)
  }

  lemma {:induction false} EncodeIsStream(files: seq<File>)
    ensures IsStream(files, Encode(files))
  {
    if files != [] {
      var f, rest := files[0], Encode(files[1..]);
      var pathDigits, contentDigits := Decimal(|f.path|), Decimal(|f.content|);
      DecimalSpells(|f.path|);
      DecimalSpells(|f.content|);
      EncodeIsStream(files[1..]);
      assert Encode(files) == pathDigits + [58 as Byte] + f.path + contentDigits + [58 as Byte] + f.content + rest;
    }
  }

  // ---- The digest ----

  /** An incremental hash: what it has been fed so far. */
  class Hasher {
    var fed: seq<Byte>

    constructor ()
      ensures fed == []
    {
      fed := [];
    }

    method Update(bytes: seq<Byte>)
      modifies this
      ensures fed == old(fed) + bytes
    {
      fed := fed + bytes;
    }
  }

  lemma {:induction false} EncodeAppend(files: seq<File>, file: File)
    ensures Encode(files + [file]) == Encode(files) + Entry(file)
  {
    if files == [] {
      assert [file][1..] == [];
    } else {
      EncodeAppend(files[1..], file);
      assert (files + [file])[1..] == files[1..] + [file];
      Associate(Entry(files[0]), Encode(files[1..]), Entry(file));
    }
  }

  lemma FourUpdates(fed: seq<Byte>, file: File)
    ensures fed + (Decimal(|file.path|) + [COLON]) + file.path + (Decimal(|file.content|) + [COLON]) + file.content
            == fed + Entry(file)
  {
  }

  /** The files are the artifacts in path order, as read from disk. */
  method ClientArtifactDigest(files: seq<File>, hash: seq<Byte> -> string) returns (r: Result<ArtifactDigest, Error>)
    ensures r == if files == [] then Err(NoArtifacts) else Ok(ArtifactDigest(|files|, hash(Encode(files))))
    ensures IsStream(files, Encode(files))
  {
    EncodeIsStream(files);
    if |files| == 0 {
      return Err(NoArtifacts);
    }
    var digest := new Hasher();
    for i := 0 to |files|
      invariant digest.fed == Encode(files[..i])
    {
      var file := files[i];
      FourUpdates(digest.fed, file);
      digest.Update(Decimal(|file.path|) + [COLON]);
      digest.Update(file.path);
      digest.Update(Decimal(|file.content|) + [COLON]);
      digest.Update(file.content);
      EncodeAppend(files[..i], file);
      assert files[..i + 1] == files[..i] + [file];
    }
    assert files[..|files|] == files;
    return Ok(ArtifactDigest(|files|, hash(digest.fed)));
  }
}
