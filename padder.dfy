/**
 * The fixed-length step of detoxic.py: `pad_sequences(seqs,
 * maxlen=MAX_SEQUENCE_LENGTH, padding='post', truncating='post')`. A token
 * sequence longer than `maxlen` keeps its first `maxlen` tokens; a shorter one
 * is followed by the filler value up to `maxlen`.
 */
module Padder {

  /** The filler `pad_sequences` writes when no `value` argument is given. */
  const PadValue: int := 0

  /** `n` copies of the filler. */
  function Fillers(n: nat): (r: seq<int>)
    ensures |r| == n
    ensures forall i :: 0 <= i < n ==> r[i] == PadValue
  {
    seq(n, _ => PadValue)
  }

  /** One row of `pad_sequences` with post padding and post truncation:
      position `i` holds the `i`-th token while there is one, the filler
      after that. */
  function PadPost(s: seq<int>, maxlen: nat): (r: seq<int>)
    ensures |r| == maxlen
    ensures forall i :: 0 <= i < maxlen ==> r[i] == if i < |s| then s[i] else PadValue
  {
    if |s| >= maxlen then s[..maxlen] else s + Fillers(maxlen - |s|)
  }

  /** `pad_sequences` over a batch: a `len(seqs)` by `maxlen` matrix whose
      row `k` is sequence `k`, cut or filled at its end. */
  function PadBatch(seqs: seq<seq<int>>, maxlen: nat): (rows: seq<seq<int>>)
    ensures |rows| == |seqs|
    ensures forall k :: 0 <= k < |rows| ==> |rows[k]| == maxlen
    ensures forall k, i :: 0 <= k < |rows| && 0 <= i < maxlen ==>
      rows[k][i] == if i < |seqs[k]| then seqs[k][i] else PadValue
  {
    seq(|seqs|, k requires 0 <= k < |seqs| => PadPost(seqs[k], maxlen))
  }

  /** The three cases: too long is cut to its first `maxlen` tokens, too short
      is followed by fillers, the exact length is unchanged. */
  lemma PadPostCases(s: seq<int>, maxlen: nat)
    ensures |s| > maxlen ==> PadPost(s, maxlen) == s[..maxlen]
    ensures |s| < maxlen ==> PadPost(s, maxlen) == s + Fillers(maxlen - |s|)
    ensures |s| == maxlen ==> PadPost(s, maxlen) == s
  {
    var r := PadPost(s, maxlen);
    if |s| > maxlen {
      assert r == s[..maxlen];
    } else if |s| < maxlen {
      assert r == s + Fillers(maxlen - |s|);
    } else {
      assert r == s;
    }
  }

  /** Padding an already padded row changes nothing. */
  lemma PadPostIdempotent(s: seq<int>, maxlen: nat)
    ensures PadPost(PadPost(s, maxlen), maxlen) == PadPost(s, maxlen)
  {
    PadPostCases(PadPost(s, maxlen), maxlen);
  }

  /** A token sequence that does not end in the filler. Token indices start
      at 1, so every tokenizer output qualifies. */
  predicate EndsInToken(s: seq<int>) {
    s == [] || s[|s| - 1] != PadValue
  }

  /** The inverse of post padding: drop the trailing fillers. */
  function TrimPadding(s: seq<int>): (r: seq<int>)
    ensures |r| <= |s| && r == s[..|r|]
    ensures EndsInToken(r)
  {
    if s != [] && s[|s| - 1] == PadValue then TrimPadding(s[..|s| - 1]) else s
  }

  /** One more filler is one filler appended. */
  lemma FillersGrow(n: nat)
    ensures Fillers(n + 1) == Fillers(n) + [PadValue]
  {
  }

  /** Trimming removes a final filler. */
  lemma TrimLast(s: seq<int>)
    ensures TrimPadding(s + [PadValue]) == TrimPadding(s)
  {
    var t := s + [PadValue];
    assert t[..|t| - 1] == s;
  }

  /** Trimming a token sequence followed by fillers gives the sequence back. */
  lemma {:induction false} TrimFillers(s: seq<int>, n: nat)
    requires EndsInToken(s)
    ensures TrimPadding(s + Fillers(n)) == s
  {
    if n == 0 {
      assert s + Fillers(0) == s;
    } else {
      var shorter := s + Fillers(n - 1);
      FillersGrow(n - 1);
      assert s + Fillers(n) == shorter + [PadValue];
      TrimLast(shorter);
      TrimFillers(s, n - 1);
    }
  }

  /** Round trip: padding loses nothing from a sequence that fits and ends in
      a token. */
  lemma PadPostTrim(s: seq<int>, maxlen: nat)
    requires EndsInToken(s) && |s| <= maxlen
    ensures TrimPadding(PadPost(s, maxlen)) == s
  {
    PadPostCases(s, maxlen);
    if |s| < maxlen {
      TrimFillers(s, maxlen - |s|);
    } else if |s| == maxlen {
      TrimFillers(s, 0);
      assert s + Fillers(0) == s;
    }
  }
}
