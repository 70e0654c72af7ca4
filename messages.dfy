/**
 * The protocol's vocabulary: five fixed ASCII tokens sent as raw datagram
 * payloads, and their lengths in bytes. A Go string is a sequence of bytes,
 * so each token is kept as its bytes; `Spells` ties them to their text.
 */
module Messages {
  import opened Net

  /** The payload `b` is the ASCII spelling of `s`: one byte per character,
      holding the character's code. */
  predicate Spells(b: seq<byte>, s: string) {
    |b| == |s| && forall k :: 0 <= k < |s| ==> b[k] as int == s[k] as int
  }

  /** Broadcast by a node to find who is available: `pelotari?`. */
  const DiscoveryMessage: seq<byte> := [0x70, 0x65, 0x6c, 0x6f, 0x74, 0x61, 0x72, 0x69, 0x3f]
  const DiscoveryMessageLen: int := |DiscoveryMessage|

  /** Sent back by a node that wants to join the discoverer: `aupa!`. */
  const ResponseMessage: seq<byte> := [0x61, 0x75, 0x70, 0x61, 0x21]
  const ResponseMessageLen: int := |ResponseMessage|

  /** Sent by the discoverer to confirm to a responder that they can talk: `dale!`. */
  const ConfirmationMessage: seq<byte> := [0x64, 0x61, 0x6c, 0x65, 0x21]
  const ConfirmationMessageLen: int := |ConfirmationMessage|

  /** Sent to a peer to check it is still online: `hor?`. */
  const HeartbeatMessage: seq<byte> := [0x68, 0x6f, 0x72, 0x3f]
  const HeartbeatMessageLen: int := |HeartbeatMessage|

  /** The answer to a heartbeat: `hemen nago!`. */
  const HeartbeatResMessage: seq<byte> := [0x68, 0x65, 0x6d, 0x65, 0x6e, 0x20, 0x6e, 0x61, 0x67, 0x6f, 0x21]
  const HeartbeatResMessageLen: int := |HeartbeatResMessage|

  /** The five tokens, in declaration order. */
  const Tokens: seq<seq<byte>> :=
    [DiscoveryMessage, ResponseMessage, ConfirmationMessage, HeartbeatMessage, HeartbeatResMessage]

  /** The texts of the five tokens, in the same order. */
  const TokenTexts: seq<string> := ["pelotari?", "aupa!", "dale!", "hor?", "hemen nago!"]

  /** Each token is the ASCII spelling of its text. */
  lemma TokenSpellings()
    ensures Spells(DiscoveryMessage, "pelotari?")
    ensures Spells(ResponseMessage, "aupa!")
    ensures Spells(ConfirmationMessage, "dale!")
    ensures Spells(HeartbeatMessage, "hor?")
    ensures Spells(HeartbeatResMessage, "hemen nago!")
  {
  }

  /** A payload spells at most one text, so texts that differ have payloads
      that differ. */
  lemma SpellsInjective(b: seq<byte>, c: seq<byte>, s: string, t: string)
    requires Spells(b, s) && Spells(c, t) && s != t
    ensures b != c
  {
  }

  /** Every length constant is the byte length of its token: 9, 5, 5, 4 and 11. */
  lemma TokenLengths()
    ensures DiscoveryMessageLen == 9 && ResponseMessageLen == 5 && ConfirmationMessageLen == 5
    ensures HeartbeatMessageLen == 4 && HeartbeatResMessageLen == 11
  {
  }

  /** The five tokens are pairwise different, so an exact comparison of a
      payload matches at most one of them: their texts differ, and so do
      their spellings. */
  lemma TokensDistinct()
    ensures forall i, j :: 0 <= i < j < |Tokens| ==> Tokens[i] != Tokens[j]
  {
    TokenSpellings();
    forall i, j | 0 <= i < j < |Tokens|
      ensures Tokens[i] != Tokens[j]
    {
      assert TokenTexts[i] != TokenTexts[j] by {
        assert TokenTexts[i][0] != TokenTexts[j][0] || |TokenTexts[i]| != |TokenTexts[j]|;
      }
      SpellsInjective(Tokens[i], Tokens[j], TokenTexts[i], TokenTexts[j]);
    }
  }
}
