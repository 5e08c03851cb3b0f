/**
  The older `src/parser/header.rs`: `signature` and `version` over a
  module-local `Version` enumeration with the same two members as `GIFVersion`.
*/
module HeaderSnapshot {
  import opened Nom
  import Gift
  import Parser

  datatype Version = GIF89a | GIF87a

  /** The `GIFVersion` of the same name. */
  function AsGifVersion(v: Version): (g: Gift.GifVersion)
    ensures v.GIF89a? <==> g.GIF89a?
  {
    match v
    case GIF89a => Gift.GIF89a
    case GIF87a => Gift.GIF87a
  }

  /** `get_version`: total; `Err` for everything but `"87a"` and `"89a"`. */
  function GetVersion(b: Bytes): (r: Outcome<Version>)
    ensures r == Ok(GIF87a) <==> b == Parser.Version87a
    ensures r == Ok(GIF89a) <==> b == Parser.Version89a
    ensures r == Err <==> b != Parser.Version87a && b != Parser.Version89a
  {
    if b == Parser.Version87a then Ok(GIF87a)
    else if b == Parser.Version89a then Ok(GIF89a)
    else Err
  }

  /** `version`: `map_res!(alt!(tag!("87a") | tag!("89a")), get_version)`. */
  function ParseVersion(s: Bytes): (r: Result<Version>)
    ensures r.Done? <==> |s| >= 3 && GetVersion(s[..3]).Ok?
    ensures r.Done? ==> r.value == GetVersion(s[..3]).value && r.rest == s[3..]
    ensures r.Incomplete? <==> |s| < 3 && (s == Parser.Version87a[..|s|] || s == Parser.Version89a[..|s|])
    ensures r.Error? ==> r == Error(s, Alt)
  {
    var tag :- OrElse(TagBytes(Parser.Version87a, s), OrElse(TagBytes(Parser.Version89a, s), Error(s, Alt)));
    match GetVersion(tag.0)
    case Ok(v) => Done(v, tag.1)
    case Err => Error(s, MapRes)
  }

  /** A version result with the local enumeration replaced by `GIFVersion`. */
  function AsGifVersionResult(r: Result<Version>): Result<Gift.GifVersion> {
    match r
    case Done(v, rest) => Done(AsGifVersion(v), rest)
    case Error(at, kind) => Error(at, kind)
    case Incomplete(n) => Incomplete(n)
  }

  /** The local `get_version` is the one of `src/parser/mod.rs` up to the enumeration. */
  lemma GetVersionSnapshotsAgree(b: Bytes)
    ensures GetVersion(b).Ok? <==> Parser.GetVersion(b).Ok?
    ensures GetVersion(b).Ok? ==> AsGifVersion(GetVersion(b).value) == Parser.GetVersion(b).value
  {
  }

  /** The local `version` is the one of `src/parser/mod.rs` up to the enumeration, failures included. */
  lemma VersionSnapshotsAgree(s: Bytes)
    ensures AsGifVersionResult(ParseVersion(s)) == Parser.ParseVersion(s)
  {
  }

  /** The version unit tests: both versions consume three bytes; `"12a"` is the `alt!` error. */
  lemma VersionExamples()
    ensures ParseVersion(Parser.Version89a) == Done(GIF89a, [])
    ensures ParseVersion(Parser.Version87a) == Done(GIF87a, [])
    ensures ParseVersion([0x31, 0x32, 0x61]) == Error([0x31, 0x32, 0x61], Alt)
  {
    assert Parser.Version89a[..3] == Parser.Version89a && Parser.Version87a[..3] == Parser.Version87a;
  }
}
