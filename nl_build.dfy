// The staging of one rtnetlink request, as values: the bytes in the scratch
// buffer, the header after its length field, the attribute tree still open,
// and the recorded positions of the open attributes.  Both generations of
// the builder keep their buffer and context in this shape.

module NlBuild {
  import opened Base
  import opened NlWire
  /** Splicing bytes into a block and then taking a prefix that covers them is splicing them into the prefix. */
  lemma SpliceTake(s: seq<byte>, off: nat, bytes: seq<byte>, n: nat)
    requires off + |bytes| <= n <= |s|
    ensures (s[..off] + bytes + s[off + |bytes|..])[..n] == s[..n][..off] + bytes + s[..n][off + |bytes|..]
  {
  }

  /** The bytes of a request being built: the header, then the staged body. */
  ghost predicate Staged(b: seq<byte>, head: seq<byte>, levels: seq<seq<Item>>, types: seq<u16>)
    requires |levels| == |types| + 1
  {
    |b| == NLMSG_HDRLEN + |Body(levels, types)| && Matches(b, AnySlots(4) + FixedSlots(head) + Body(levels, types))
  }

  /** Where each open attribute's header starts: after the header and everything staged before it. */
  ghost function Positions(levels: seq<seq<Item>>, types: seq<u16>): (r: seq<nat>)
    requires |levels| == |types| + 1
    ensures |r| == |types|
    decreases |types|
  {
    if types == [] then []
    else
      var n := |types|;
      Positions(levels[..n], types[..n - 1]) + [NLMSG_HDRLEN + |Body(levels[..n], types[..n - 1])|]
  }

  /** The state of a request being built, as values: bytes, header, attribute tree and open positions. */
  ghost predicate Wellformed(b: seq<byte>, head: seq<byte>, levels: seq<seq<Item>>, types: seq<u16>,
                             positions: seq<nat>)
  {
    && |head| == NLMSG_HDRLEN - 4
    && |levels| == |types| + 1
    && |types| <= MAX_ATTR_NEST
    && Staged(b, head, levels, types)
    && positions == Positions(levels, types)
  }

  /** The open positions depend only on the levels that enclose the innermost one. */
  lemma PositionsOuter(levels1: seq<seq<Item>>, levels2: seq<seq<Item>>, types: seq<u16>)
    requires |levels1| == |levels2| == |types| + 1
    requires levels1[..|types|] == levels2[..|types|]
    ensures Positions(levels1, types) == Positions(levels2, types)
  {
  }

  /** A freshly initialised request: the header and nothing else. */
  lemma HeaderWellformed(b: seq<byte>, h: seq<byte>)
    requires |h| == NLMSG_HDRLEN - 4 && |b| == NLMSG_HDRLEN && b[4..16] == h
    ensures Wellformed(b, h, [[]], [], [])
  {
    var p := AnySlots(4) + FixedSlots(h) + ItemsPattern([]);
    forall i | 0 <= i < |p| && p[i].Fixed?
      ensures b[i] == p[i].b
    {
      assert b[i] == b[4..16][i - 4];
    }
  }

  /** Appending bytes keeps the request well formed, with the bytes added to the innermost level. */
  lemma AppendWellformed(b: seq<byte>, head: seq<byte>, levels: seq<seq<Item>>, types: seq<u16>,
                         positions: seq<nat>, bytes: seq<byte>)
    requires Wellformed(b, head, levels, types, positions)
    ensures Wellformed(b + bytes, head, levels[..|types|] + [levels[|types|] + [Raw(bytes)]], types, positions)
  {
    var n := |types|;
    var grown := levels[..n] + [levels[n] + [Raw(bytes)]];
    BodyAppendItem(levels, types, Raw(bytes));
    var prefix := AnySlots(4) + FixedSlots(head);
    MatchesConcat(b, prefix + Body(levels, types), bytes, FixedSlots(bytes));
    ConcatAssoc(prefix, Body(levels, types), FixedSlots(bytes));
    assert grown[..n] == levels[..n];
    PositionsOuter(grown, levels, types);
  }

  /** Opening an attribute keeps the request well formed and records where its header starts. */
  lemma PushWellformed(b: seq<byte>, b2: seq<byte>, head: seq<byte>, levels: seq<seq<Item>>, types: seq<u16>,
                       positions: seq<nat>, t: u16)
    requires Wellformed(b, head, levels, types, positions) && |types| < MAX_ATTR_NEST
    requires |b2| == |b| + RTA_HDRLEN && b2[..|b|] == b && b2[|b| + 2..] == LE16(t)
    ensures Wellformed(b2, head, levels + [[]], types + [t], positions + [|b|])
  {
    var prefix := AnySlots(4) + FixedSlots(head);
    BodyPush(levels, types, t);
    MatchesOpen(b, b2, prefix + Body(levels, types), t);
    ConcatAssoc(prefix, Body(levels, types), OpenHeader(t));
    assert (levels + [[]])[..|types| + 1] == levels;
    assert (types + [t])[..|types|] == types;
  }

  /** The innermost open attribute starts where the recorded position says, and its header is complete. */
  lemma PopPosition(b: seq<byte>, head: seq<byte>, levels: seq<seq<Item>>, types: seq<u16>, positions: seq<nat>)
    requires Wellformed(b, head, levels, types, positions) && |types| >= 1
    ensures var d := |types|;
      && positions[d - 1] == NLMSG_HDRLEN + |Body(levels[..d], types[..d - 1])|
      && positions[d - 1] + RTA_HDRLEN + |ItemsPattern(levels[d])| == |b|
  {
    BodyClose(levels, types);
  }

  /** Closing the innermost attribute keeps the request well formed, with one attribute fewer open. */
  lemma PopWellformed(b: seq<byte>, b2: seq<byte>, head: seq<byte>, levels: seq<seq<Item>>, types: seq<u16>,
                      positions: seq<nat>)
    requires Wellformed(b, head, levels, types, positions) && |types| >= 1
    requires var pos := positions[|types| - 1];
      && pos + RTA_HDRLEN <= |b|
      && |b2| == pos + Align4(|b| - pos)
      && b2[..|b|] == b[..pos] + LE16((|b| - pos) % U16_LIMIT) + b[pos + 2..]
    ensures var d := |types|;
      Wellformed(b2, head, PopLevel(levels, types), types[..d - 1],
                 positions[..d - 1])
  {
    var d := |types|;
    var closed := PopLevel(levels, types);
    PopPosition(b, head, levels, types, positions);
    BodyClose(levels, types);
    PopStaged(b, b2, head, levels, types);
    assert closed[..d - 1] == levels[..d][..d - 1];
    PositionsOuter(closed, levels[..d], types[..d - 1]);
  }

  /** The staged bytes after a pop match the request with the innermost attribute closed. */
  lemma PopStaged(before: seq<byte>, after: seq<byte>, head: seq<byte>,
                  levels: seq<seq<Item>>, types: seq<u16>)
    requires |levels| == |types| + 1 && |types| >= 1
    requires Matches(before, AnySlots(4) + FixedSlots(head) + Body(levels, types))
    requires var d := |types|;
      var pos := NLMSG_HDRLEN + |Body(levels[..d], types[..d - 1])|;
      && |before| == NLMSG_HDRLEN + |Body(levels, types)|
      && |head| == NLMSG_HDRLEN - 4
      && |after| == pos + |ItemPattern(Nest(types[d - 1], levels[d]))|
      && after[..|before|] == before[..pos] + LE16((|before| - pos) % U16_LIMIT) + before[pos + 2..]
    ensures var d := |types|;
      Matches(after, AnySlots(4) + FixedSlots(head)
        + Body(PopLevel(levels, types), types[..d - 1]))
  {
    var d := |types|;
    BodyClose(levels, types);
    var prefix := AnySlots(4) + FixedSlots(head);
    var outer := Body(levels[..d], types[..d - 1]);
    var nest := Nest(types[d - 1], levels[d]);
    ConcatAssoc(prefix, outer + OpenHeader(types[d - 1]), ItemsPattern(levels[d]));
    ConcatAssoc(prefix, outer, OpenHeader(types[d - 1]));
    var pos := NLMSG_HDRLEN + |outer|;
    var closed := after[..|before|];
    assert after[..pos] == closed[..pos];
    assert after[pos..pos + 2] == closed[pos..pos + 2];
    assert after[pos + 2..|before|] == closed[pos + 2..];
    MatchesClose(before, after, prefix + outer, types[d - 1], levels[d]);
    ConcatAssoc(prefix, outer, ItemPattern(nest));
  }

  /** The sequence number the response loop waits for is the one in the header that was sent. */
  lemma SentSeqNo(sent: seq<byte>, head: seq<byte>, items: seq<Item>)
    requires |head| == NLMSG_HDRLEN - 4
    requires Matches(sent, SentPattern(head, items))
    ensures ReadLE32(sent, 8) == ReadLE32(head, 4)
  {
    var p := SentPattern(head, items);
    forall i | 8 <= i < 12
      ensures sent[i] == head[i - 4]
    {
      assert p[i] == Fixed(head[i - 4]);
    }
  }
}
