/** The ring structure that client and driver share. */
module SharedRing {
  import opened Words
  import opened RingLayout

  /** A ring in shared memory. */
  class TunRing {
    var head: nat
    var tail: nat
    var alertable: bool
    const data: array<byte>

    constructor (capacity: nat)
      ensures head == tail == 0 && !alertable
      ensures fresh(data) && data.Length == capacity + SLACK
      ensures data[..] == seq(capacity + SLACK, _ => 0)
    {
      head, tail, alertable := 0, 0, false;
      data := new byte[capacity + SLACK](_ => 0);
    }

    method WriteULong(at: nat, word: nat)
      requires at + 4 <= data.Length && word < TWO32
      modifies data
      ensures data[..] == Write32(old(data[..]), at, word)
    {
      var bytes := LittleEndian32(word);
      data[at] := bytes[0];
      data[at + 1] := bytes[1];
      data[at + 2] := bytes[2];
      data[at + 3] := bytes[3];
    }

    lemma {:induction false} SpliceNothing(s: seq<byte>, at: nat, bytes: seq<byte>)
      requires at + |bytes| <= |s|
      ensures Splice(s, at, bytes[..0]) == s
    {
    }

    lemma {:induction false} SpliceOneMore(s: seq<byte>, at: nat, bytes: seq<byte>, i: nat)
      requires at + |bytes| <= |s| && i < |bytes|
      ensures Splice(s, at, bytes[..i + 1]) == Splice(s, at, bytes[..i])[at + i := bytes[i]]
    {
      assert bytes[..i + 1] == bytes[..i] + [bytes[i]];
    }

    method WriteBytes(at: nat, bytes: seq<byte>)
      requires at + |bytes| <= data.Length
      modifies data
      ensures data[..] == Splice(old(data[..]), at, bytes)
    {
      hide Splice;
      SpliceNothing(data[..], at, bytes);
      for i := 0 to |bytes|
        invariant data[..] == Splice(old(data[..]), at, bytes[..i])
      {
        SpliceOneMore(old(data[..]), at, bytes, i);
        data[at + i] := bytes[i];
        assert data[..] == Splice(old(data[..]), at, bytes[..i])[at + i := bytes[i]];
      }
      assert bytes[..|bytes|] == bytes;
    }
  }
}
