/**
 * The pushback buffer the grammar engine reads through. It belongs to another
 * crate; this is the contract its use implies: a queue of pushed-back
 * characters in front of the character decoder.
 */
module TokenBuf {
  import opened CharBuf

  class TokenBuffer {
    /** Characters pushed back, to be read again before the decoder is asked. */
    var pending: seq<Char>
    const stream: CharStream

    /** The characters that later pops return, in order. */
    ghost var unread: seq<Char>
    /** What a pop returns once `unread` is exhausted: end of input, or a decode error. */
    ghost var ending: Ending

    /** `unread` is the pushed-back queue followed by everything the decoder will still produce. */
    ghost predicate Valid()
      reads this, stream
    {
      && stream.Valid()
      && unread == pending + Decode(stream.Remaining()).chars
      && ending == Decode(stream.Remaining()).ending
    }

    constructor (bytes: seq<u8>)
      ensures Valid() && fresh(stream)
      ensures pending == [] && unread == Decode(bytes).chars && ending == Decode(bytes).ending
    {
      var source := new CharStream(bytes);
      assert source.Remaining() == bytes;
      pending := [];
      stream := source;
      unread := Decode(bytes).chars;
      ending := Decode(bytes).ending;
    }

    /** The next character: from the pushed-back queue, else from the decoder. */
    method Pop() returns (r: Result<Option<Char>>)
      requires Valid()
      modifies this, stream
      ensures Valid()
      ensures old(unread) != [] ==>
        r == Ok(Some(old(unread)[0])) && unread == old(unread)[1..] && ending == old(ending)
      ensures old(unread) == [] && old(ending).Clean? ==> r == Ok(None) && unread == [] && ending == Clean
      ensures old(unread) == [] && old(ending).Broken? ==> r == Err(old(ending).error)
      ensures old(pending) != [] ==> pending == old(pending)[1..] && unchanged(stream)
    {
      if pending != [] {
        ghost var rest := Decode(stream.Remaining()).chars;
        assert unread[1..] == pending[1..] + rest;
        r := Ok(Some(pending[0]));
        pending := pending[1..];
        unread := unread[1..];
        return;
      }
      r := PopDecoded();
    }

    /** A pop with nothing pushed back: the decoder's next character. */
    method PopDecoded() returns (r: Result<Option<Char>>)
      requires Valid() && pending == []
      modifies this`unread, this`ending, stream
      ensures Valid() && pending == []
      ensures old(unread) != [] ==>
        r == Ok(Some(old(unread)[0])) && unread == old(unread)[1..] && ending == old(ending)
      ensures old(unread) == [] && old(ending).Clean? ==> r == Ok(None) && unread == [] && ending == Clean
      ensures old(unread) == [] && old(ending).Broken? ==> r == Err(old(ending).error)
    {
      ghost var bs, at := stream.Remaining(), stream.pos;
      r := stream.Next();
      ghost var now := stream.Remaining();
      if !StepAt(bs).EndOfInput? {
        assert now == bs[StepAt(bs).used..] by {
          assert stream.bytes[at..][StepAt(bs).used..] == stream.bytes[at + StepAt(bs).used..];
        }
      }
      DecodeNext(bs, now, r);
      unread := Decode(now).chars;
      ending := Decode(now).ending;
    }

    /** Puts one character back in front of the unread ones. */
    method Push(c: Char)
      requires Valid()
      modifies this
      ensures Valid()
      ensures pending == [c] + old(pending)
      ensures unread == [c] + old(unread) && ending == old(ending)
    {
      ghost var rest := Decode(stream.Remaining()).chars;
      assert [c] + unread == ([c] + pending) + rest;
      pending := [c] + pending;
      unread := [c] + unread;
    }

    /** Puts a sequence of characters back, to be read again in their original order. */
    method PushTokens(v: seq<Char>)
      requires Valid()
      modifies this
      ensures Valid()
      ensures pending == v + old(pending)
      ensures unread == v + old(unread) && ending == old(ending)
    {
      ghost var rest := Decode(stream.Remaining()).chars;
      assert v + unread == (v + pending) + rest;
      pending := v + pending;
      unread := v + unread;
    }

    /** The number of pushed-back characters. */
    method Len() returns (n: nat)
      requires Valid()
      ensures n == |pending| && n <= |unread|
    {
      n := |pending|;
    }
  }

  /** One decoder step, as CharStream::next takes it, is one step along `Decode`. */
  lemma DecodeNext(bs: seq<u8>, now: seq<u8>, r: Result<Option<Char>>)
    requires StepAt(bs).EndOfInput? ==> r == Ok(None) && now == bs
    requires StepAt(bs).Emit? ==> r == Ok(Some(StepAt(bs).c)) && now == bs[StepAt(bs).used..]
    requires StepAt(bs).Reject? ==> r == Err(StepAt(bs).error)
    ensures Decode(bs).chars != [] ==>
      r == Ok(Some(Decode(bs).chars[0])) && Decode(now) == Decoding(Decode(bs).chars[1..], Decode(bs).ending)
    ensures Decode(bs).chars == [] && Decode(bs).ending.Clean? ==> r == Ok(None) && Decode(now) == Decoding([], Clean)
    ensures Decode(bs).chars == [] && Decode(bs).ending.Broken? ==> r == Err(Decode(bs).ending.error)
  {
    match StepAt(bs)
    case EndOfInput =>
    case Reject(_, _) =>
    case Emit(c, n) =>
      assert Decode(bs).chars == [c] + Decode(now).chars;
  }
}
