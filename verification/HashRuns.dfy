/** Whole runs of the three hash objects: however the message is cut into pieces, and however
    often the hash is asked for in between, the digest is that of the whole message. */
module HashRuns {
  import opened Bytes
  import opened Padding
  import Md5
  import Sha1
  import Sha2

  method Md5OfPieces(a: Algorithm, pieces: seq<seq<byte>>, size: nat) returns (digest: seq<byte>)
    requires Md5.IsMd5(a)
    ensures var d := Digest(a, Flatten(pieces)); digest == d[..Min(size, |d|)]
  {
    var hash := new Md5.Md5(a);
    var data := new byte[size];
    var i := 0;
    while i < |pieces|
      invariant 0 <= i <= |pieces| && fresh(hash) && fresh(hash.buffer) && hash.algorithm == a && data != hash.buffer
      invariant hash.Valid() && hash.message == Flatten(pieces[..i])
    {
      hash.Add(pieces[i]);
      var _ := hash.GetHash(data);
      assert pieces[..i + 1][..i] == pieces[..i];
      i := i + 1;
    }
    assert pieces[..i] == pieces;
    var n := hash.GetHash(data);
    digest := data[..n];
  }

  method Sha1OfPieces(a: Algorithm, pieces: seq<seq<byte>>, size: nat) returns (digest: seq<byte>)
    requires Sha1.IsSha1(a)
    ensures var d := Digest(a, Flatten(pieces)); digest == d[..Min(size, |d|)]
  {
    var hash := new Sha1.Sha1(a);
    var data := new byte[size];
    var i := 0;
    while i < |pieces|
      invariant 0 <= i <= |pieces| && fresh(hash) && fresh(hash.block) && hash.algorithm == a && data != hash.block
      invariant hash.Valid() && hash.message == Flatten(pieces[..i])
    {
      hash.Add(pieces[i]);
      var _ := hash.GetHash(data);
      assert pieces[..i + 1][..i] == pieces[..i];
      i := i + 1;
    }
    assert pieces[..i] == pieces;
    var n := hash.GetHash(data);
    digest := data[..n];
  }

  method Sha2OfPieces(a: Algorithm, pieces: seq<seq<byte>>, size: nat) returns (digest: seq<byte>)
    requires Sha2.IsSha2(a)
    ensures var d := Digest(a, Flatten(pieces));
      digest == Sha2.WholeWords(d, Min(size, |d|), Sha2.WordSize(a))
  {
    var hash := new Sha2.Sha2(a);
    var data := new byte[size];
    var i := 0;
    while i < |pieces|
      invariant 0 <= i <= |pieces| && fresh(hash) && fresh(hash.block) && hash.algorithm == a && data != hash.block
      invariant hash.Valid() && hash.message == Flatten(pieces[..i])
    {
      hash.Add(pieces[i]);
      var _ := hash.GetHash(data);
      assert pieces[..i + 1][..i] == pieces[..i];
      i := i + 1;
    }
    assert pieces[..i] == pieces;
    var n := hash.GetHash(data);
    digest := data[..n];
  }
}
