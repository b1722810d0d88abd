/** The `qXfer` transfer window: a reply holds the part of a document that
    starts at the requested offset, at most the requested length of it, after
    a marker that says whether the client should ask for more (`m`) or has
    reached the end (`l`). */
module Transfer {
  import opened Wire

  /** The reply payload for a window request. */
  function Window(data: Bytes, offset: nat, len: nat): (r: Bytes)
  {
    if offset > |data| then "l"
    else
      var chunk := data[offset..Min(offset + len, |data|)];
      (if |chunk| >= len then "m" else "l") + chunk
  }

  /** An offset past the end gets a bare `l`; otherwise the reply is the
      marker and then the bytes from the offset up to the length or the end of
      the document, and the marker is `m` exactly when the whole requested
      length lies inside the document. */
  lemma WindowContents(data: Bytes, offset: nat, len: nat)
    ensures offset > |data| ==> Window(data, offset, len) == "l"
    ensures offset <= |data| ==>
      && |Window(data, offset, len)| >= 1
      && Window(data, offset, len)[1..] == data[offset..Min(offset + len, |data|)]
      && (Window(data, offset, len)[0] == 'm' <==> offset + len <= |data|)
      && (Window(data, offset, len)[0] == 'm' || Window(data, offset, len)[0] == 'l')
  {
  }

  /** With a ten-byte document: a window at the start is full and marked `m`;
      a window over the last two bytes is short and marked `l`. */
  lemma WindowExamples(data: Bytes)
    requires |data| == 10
    ensures Window(data, 0, 4) == "m" + data[0..4]
    ensures Window(data, 8, 4) == "l" + data[8..10]
    ensures Window(data, 11, 4) == "l"
  {
  }

  /** A client that asks for consecutive windows of `len` bytes, starting at
      `offset`, until it gets an `l` reply, and glues the replies together
      without their markers. */
  function FetchFrom(data: Bytes, offset: nat, len: nat): Bytes
    requires len > 0 && offset <= |data|
    decreases |data| - offset
  {
    var w := Window(data, offset, len);
    if w[0] == 'm' then w[1..] + FetchFrom(data, offset + len, len) else w[1..]
  }

  /** A full window: its bytes, then the windows after it. */
  lemma FetchFull(data: Bytes, offset: nat, len: nat, rest: Bytes)
    requires len > 0 && offset + len <= |data|
    requires FetchFrom(data, offset + len, len) == rest
    ensures FetchFrom(data, offset, len) == data[offset..offset + len] + rest
  {
    WindowContents(data, offset, len);
  }

  /** The last, short window: the rest of the document. */
  lemma FetchLast(data: Bytes, offset: nat, len: nat)
    requires len > 0 && offset <= |data| < offset + len
    ensures FetchFrom(data, offset, len) == data[offset..]
  {
    WindowContents(data, offset, len);
  }

  lemma SlicesJoin(s: Bytes, i: nat, j: nat)
    requires i <= j <= |s|
    ensures s[i..j] + s[j..] == s[i..]
  {
  }

  /** The windows together are the document from the offset on. */
  lemma {:induction false} FetchReassembles(data: Bytes, offset: nat, len: nat)
    requires len > 0 && offset <= |data|
    ensures FetchFrom(data, offset, len) == data[offset..]
    decreases |data| - offset
  {
    if offset + len <= |data| {
      FetchReassembles(data, offset + len, len);
      FetchFull(data, offset, len, data[offset + len..]);
      SlicesJoin(data, offset, offset + len);
    } else {
      FetchLast(data, offset, len);
    }
  }
}
