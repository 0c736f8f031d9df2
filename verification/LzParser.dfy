/** `tdefl_compress_normal` of `src/miniz.c`: the lazy LZ77 parser, its dictionary and its match finder. */
module LzParser {
  import opened Bits
  import opened LzTokens
  import opened LzDictionary

  const CODE_BUF_SIZE := 65536

  // ---------------------------------------------------------------- what the parser has recorded

  /** The recorded tokens stand for the input from `start` to `pos`, apart from one byte if a match that
      starts with it is pending. */
  ghost predicate Parsed(tokens: seq<Token>, input: seq<Byte>, start: nat, pos: nat, savedLen: nat, savedDist: nat, savedLit: Byte) {
    && (savedLen > 0 ==> pos > 0)
    && Continues(tokens, input, start, if savedLen > 0 then pos - 1 else pos)
    && (savedLen > 0 ==> Pending(input, pos - 1, savedLen, savedDist, savedLit))
  }

  ghost predicate Pending(input: seq<Byte>, at: nat, len: nat, dist: nat, lit: Byte) {
    MIN_MATCH <= len < 128 && dist <= DICT_SIZE && IsMatch(input, at, len, dist) && lit == input[at]
  }

  lemma LiteralRecorded(tokens: seq<Token>, input: seq<Byte>, start: nat, pos: nat, d: nat, c: Byte)
    requires Parsed(tokens, input, start, pos, 0, d, c) && pos < |input|
    ensures Parsed(tokens + [Literal(input[pos])], input, start, pos + 1, 0, d, c)
  {
    hide Continues;
    LiteralContinues(tokens, input, start, pos);
  }

  lemma PendingRecordedAsLiteral(tokens: seq<Token>, input: seq<Byte>, start: nat, pos: nat, len: nat, dist: nat, lit: Byte)
    requires Parsed(tokens, input, start, pos, len, dist, lit) && len > 0
    ensures Parsed(tokens + [Literal(lit)], input, start, pos, 0, dist, lit)
  {
    hide Continues;
    LiteralContinues(tokens, input, start, pos - 1);
  }

  lemma PendingRecordedAsMatch(tokens: seq<Token>, input: seq<Byte>, start: nat, pos: nat, len: nat, dist: nat, lit: Byte)
    requires Parsed(tokens, input, start, pos, len, dist, lit) && len > 0
    ensures Parsed(tokens + [Match(len, dist)], input, start, pos + len - 1, 0, dist, lit)
    ensures MIN_MATCH <= len && pos + len - 1 <= |input|
  {
    hide Continues;
    MatchContinues(tokens, input, start, pos - 1, len, dist);
  }

  lemma MatchRecorded(tokens: seq<Token>, input: seq<Byte>, start: nat, pos: nat, len: nat, dist: nat, d: nat, c: Byte)
    requires Parsed(tokens, input, start, pos, 0, d, c) && IsMatch(input, pos, len, dist)
    requires MIN_MATCH <= len <= MAX_MATCH && dist <= DICT_SIZE
    ensures Parsed(tokens + [Match(len, dist)], input, start, pos + len, 0, d, c) && pos + len <= |input|
  {
    hide Continues;
    MatchContinues(tokens, input, start, pos, len, dist);
  }

  lemma MatchSaved(tokens: seq<Token>, input: seq<Byte>, start: nat, pos: nat, len: nat, dist: nat, d: nat, c: Byte)
    requires Parsed(tokens, input, start, pos, 0, d, c) && IsMatch(input, pos, len, dist)
    requires MIN_MATCH <= len < 128 && dist <= DICT_SIZE
    ensures Parsed(tokens, input, start, pos + 1, len, dist, input[pos])
  {
  }

  lemma ParsedWithMore(tokens: seq<Token>, input: seq<Byte>, more: seq<Byte>, start: nat, pos: nat, len: nat, dist: nat, lit: Byte)
    requires Parsed(tokens, input, start, pos, len, dist, lit)
    ensures Parsed(tokens, input + more, start, pos, len, dist, lit) && start <= |input| && (input + more)[..start] == input[..start]
  {
    hide Expand, Legal;
    var n := if len > 0 then pos - 1 else pos;
    assert (input + more)[..n] == input[..n] && (input + more)[..start] == input[..start];
  }

  /** What the match finder may answer: nothing, or a match of the input at `pos`. */
  ghost predicate Answer(input: seq<Byte>, pos: nat, dictSize: nat, dist: nat, len: nat, longest: nat) {
    if dist == 0 then len <= longest
    else IsMatch(input, pos, len, dist) && MIN_MATCH <= len <= MAX_MATCH && dist <= dictSize
  }

  // ---------------------------------------------------------------- the compressor's state

  class Compressor {
    const greedy: bool
    const rleMatches: bool
    const forceRaw: bool
    const filterMatches: bool
    const maxProbes: nat
    const maxProbesLong: nat
    const dict: array<Byte>
    const next: array<nat>
    const hash: array<nat>

    var lookaheadPos: nat
    var lookaheadSize: nat
    var dictSize: nat
    var savedDist: nat
    var savedLen: nat
    var savedLit: Byte
    var codes: seq<Token>
    var codePos: nat
    var flagsLeft: nat
    var totalBytes: nat
    var blockStart: nat
    var blocks: seq<Block>

    /** All bytes read so far. */
    ghost var input: seq<Byte>

    ghost predicate Shape()
      reads this, next, hash
    {
      && dict.Length == DICT_SIZE + TAIL && next.Length == DICT_SIZE && hash.Length == HASH_SIZE && next != hash
      && maxProbes >= 1 && maxProbesLong >= 1
      && (forall i :: 0 <= i < next.Length ==> next[i] < 65536)
      && (forall i :: 0 <= i < hash.Length ==> hash[i] < 65536)
    }

    ghost predicate Sizes()
      reads this
    {
      && dictSize <= lookaheadPos && dictSize + lookaheadSize <= DICT_SIZE && lookaheadSize <= MAX_MATCH
      && |input| == lookaheadPos + lookaheadSize
    }

    ghost predicate Reading()
      reads this, dict, next, hash
    {
      Shape() && Sizes() && Window(dict[..], input, lookaheadPos - dictSize, |input|)
    }

    /** The buffer of codes is within its bounds, and the bytes of the block under way are counted. */
    ghost predicate Accounted()
      reads this
    {
      totalBytes == Size(codes) && |codes| < codePos && 1 <= flagsLeft <= 8
    }

    ghost predicate Valid()
      reads this, dict, next, hash
    {
      && Reading() && Accounted() && codePos <= CODE_BUF_SIZE - 8
      && Parsed(codes, input, blockStart, lookaheadPos, savedLen, savedDist, savedLit)
      && Inflate(blocks) == Bytes(input[..blockStart]) && AllSendable(blocks)
      && (rleMatches || forceRaw ==> savedLen == 0)
    }

    /** `tdefl_init`; the dictionary and, with the nondeterministic flag, the chains may hold anything. */
    constructor (greedy: bool, rleMatches: bool, forceRaw: bool, filterMatches: bool, probes: nat, chains: seq<nat>)
      requires probes <= 4095 && |chains| == HASH_SIZE && forall i :: 0 <= i < HASH_SIZE ==> chains[i] < 65536
      ensures Valid() && input == [] && blocks == [] && codes == []
      ensures fresh(dict) && fresh(next) && fresh(hash)
    {
      this.greedy, this.rleMatches, this.forceRaw, this.filterMatches := greedy, rleMatches, forceRaw, filterMatches;
      maxProbes, maxProbesLong := 1 + (probes + 2) / 3, 1 + (probes / 4 + 2) / 3;
      dict := new Byte[DICT_SIZE + TAIL](_ => 0);
      next := new nat[DICT_SIZE](_ => 0);
      hash := new nat[HASH_SIZE](i requires 0 <= i < HASH_SIZE => chains[i]);
      lookaheadPos, lookaheadSize, dictSize := 0, 0, 0;
      savedDist, savedLen, savedLit := 0, 0, 0;
      codes, codePos, flagsLeft, totalBytes, blockStart, blocks := [], 1, 8, 0, 0, [];
      input := [];
    }

    // -------------------------------------------------------------- filling the dictionary

    /** Stores one byte at its place, and behind the end if it is one of the first 257. */
    method PutByte(pos: nat, c: Byte)
      requires dict.Length == DICT_SIZE + TAIL
      modifies dict
      ensures dict[..] == Put(old(dict[..]), pos, c)
    {
      var dst := At(pos);
      dict[dst] := c;
      if dst < TAIL {
        dict[DICT_SIZE + dst] := c;
      }
    }

    /** Puts a position at the head of the chain of its hash. */
    method Chain(h: nat, insPos: nat)
      requires Shape() && h < HASH_SIZE
      modifies next, hash
      ensures Shape()
    {
      next[At(insPos)] := hash[h];
      hash[h] := insPos % 65536;
    }

    /** While bytes are read: the window ends at the last of them and is as long as it can be. */
    ghost predicate Filling(hi: nat)
      reads this, dict, next, hash
    {
      && Shape() && dictSize <= lookaheadPos <= hi <= |input|
      && Window(dict[..], input, Lowest(lookaheadPos - dictSize, hi), hi)
    }

    /** Stores the next byte of the input. */
    method PutNext(hi: nat, c: Byte)
      requires Filling(hi) && hi < |input| && input[hi] == c
      modifies dict
      ensures Filling(hi + 1)
    {
      hide Window, Put;
      LowestNext(lookaheadPos - dictSize, hi);
      PutGrows(dict[..], input, Lowest(lookaheadPos - dictSize, hi), hi, Lowest(lookaheadPos - dictSize, hi + 1));
      PutByte(hi, c);
    }

    /** Lines 2508 to 2520: with two bytes known, the hash is rolled from one position to the next. */
    method FillRolling(src: seq<Byte>, n: nat)
      requires Filling(lookaheadPos + lookaheadSize) && lookaheadSize + dictSize >= MIN_MATCH - 1
      requires n <= |src| && |input| == lookaheadPos + lookaheadSize + n && input[lookaheadPos + lookaheadSize..] == src[..n]
      modifies this`lookaheadSize, dict, next, hash
      ensures Filling(|input|) && lookaheadSize == old(lookaheadSize) + n
    {
      hide Window, Lowest;
      var hi := lookaheadPos + lookaheadSize;
      var insPos := lookaheadPos + lookaheadSize - 2;
      var h: nat := HashStep(dict[At(insPos)], dict[At(insPos + 1)]);
      lookaheadSize := lookaheadSize + n;
      for i := 0 to n
        invariant Filling(hi + i) && h < HASH_SIZE && lookaheadSize == old(lookaheadSize) + n
      {
        var c := src[i];
        assert input[hi..][i] == src[..n][i];
        PutNext(hi + i, c);
        h := HashStep(h, c);
        Chain(h, insPos + i);
      }
      assert hi + n == |input|;
    }

    /** Lines 2524 to 2538: the first bytes; a position is hashed once three bytes of it are known. */
    method FillStart(src: seq<Byte>) returns (n: nat)
      requires Filling(lookaheadPos + lookaheadSize) && lookaheadSize <= MAX_MATCH
      requires |input| == lookaheadPos + lookaheadSize + |src| && input[lookaheadPos + lookaheadSize..] == src
      modifies this`lookaheadSize, dict, next, hash
      ensures n <= |src| && lookaheadSize == old(lookaheadSize) + n <= MAX_MATCH
      ensures Filling(lookaheadPos + lookaheadSize) && (n == |src| || lookaheadSize == MAX_MATCH)
    {
      hide Window, Lowest;
      n := 0;
      ghost var was := lookaheadPos + lookaheadSize;
      while n < |src| && lookaheadSize < MAX_MATCH
        invariant n <= |src| && lookaheadSize == old(lookaheadSize) + n <= MAX_MATCH
        invariant Filling(lookaheadPos + lookaheadSize)
      {
        var c := src[n];
        assert input[was..][n] == src[n];
        PutNext(lookaheadPos + lookaheadSize, c);
        n := n + 1;
        lookaheadSize := lookaheadSize + 1;
        if lookaheadSize + dictSize >= MIN_MATCH {
          var insPos := lookaheadPos + (lookaheadSize - 1) - 2;
          Chain(HashStep(HashStep(dict[At(insPos)], dict[At(insPos + 1)]), c), insPos);
        }
      }
    }

    /** Lines 2506 to 2540: reads up to 258 bytes ahead, and gives up as much of the dictionary. */
    method Fill(src: seq<Byte>) returns (n: nat)
      requires Valid()
      modifies this`lookaheadSize, this`dictSize, this`input, dict, next, hash
      ensures Valid() && n <= |src| && input == old(input) + src[..n]
      ensures n == |src| || lookaheadSize == MAX_MATCH
    {
      hide Window, Parsed, Lowest, Inflate, Size;
      n := if |src| <= MAX_MATCH - lookaheadSize then |src| else MAX_MATCH - lookaheadSize;
      ghost var more := src[..n];
      ParsedWithMore(codes, input, more, blockStart, lookaheadPos, savedLen, savedDist, savedLit);
      WindowOfMore(dict[..], input, more, lookaheadPos - dictSize, |input|);
      LowestStart(lookaheadPos, dictSize, |input|);
      input := input + more;
      if lookaheadSize + dictSize >= MIN_MATCH - 1 {
        FillRolling(src, n);
      } else {
        var m := FillStart(src[..n]);
      }
      var room := DICT_SIZE - lookaheadSize;
      LowestKept(lookaheadPos, dictSize, lookaheadSize);
      WindowShrinks(dict[..], input, Lowest(lookaheadPos - dictSize, |input|), |input|, lookaheadPos - if room < dictSize then room else dictSize);
      dictSize := if room < dictSize then room else dictSize;
    }
  
    // -------------------------------------------------------------- finding a match

    /** `TDEFL_PROBE`, up to three times: follows the chain to a place that could beat the best match. */
    method Probe(maxDist: nat, matchLen: nat, c0: Byte, c1: Byte, probePos0: nat) returns (found: bool, ended: bool, dist: nat, probePos: nat)
      requires Shape() && probePos0 < DICT_SIZE && maxDist <= dictSize <= lookaheadPos && 1 <= matchLen <= TAIL
      ensures probePos < DICT_SIZE
      ensures found ==> !ended && dist <= maxDist && probePos == At(lookaheadPos - dist)
    {
      found, ended, dist, probePos := false, false, 0, probePos0;
      var k := 0;
      while k < 3
        invariant probePos < DICT_SIZE
      {
        var nextPos := next[probePos];
        dist := (lookaheadPos + 65536 - nextPos) % 65536;
        if nextPos == 0 || dist > maxDist {
          ended := true;
          return;
        }
        ChainPosition(lookaheadPos, nextPos, dist);
        probePos := At(nextPos);
        if dict[probePos + matchLen] == c0 && dict[probePos + matchLen - 1] == c1 {
          found := true;
          return;
        }
        k := k + 1;
      }
    }

    /** The comparison loop: how many bytes agree. */
    method Compare(probePos: nat, dist: nat, maxLen: nat) returns (len: nat)
      requires Reading() && 1 <= dist <= dictSize && probePos == At(lookaheadPos - dist) && maxLen <= lookaheadSize
      ensures len <= maxLen && IsMatch(input, lookaheadPos, len, dist)
    {
      hide Window, At;
      len := 0;
      var s := At(lookaheadPos);
      while len < maxLen
        invariant len <= maxLen && IsMatch(input, lookaheadPos, len, dist)
      {
        ReadAhead(dict[..], input, lookaheadPos - dictSize, |input|, lookaheadPos, len);
        ReadAhead(dict[..], input, lookaheadPos - dictSize, |input|, lookaheadPos - dist, len);
        if dict[s + len] != dict[probePos + len] {
          return;
        }
        MatchGrows(input, lookaheadPos, len, dist);
        len := len + 1;
      }
    }

    /** `tdefl_find_match`: any match it reports is one, whatever the chains hold. */
    method FindMatch(maxDist: nat, maxMatchLen: nat, longest: nat) returns (matchDist: nat, matchLen: nat)
      requires Reading() && maxDist == dictSize && maxMatchLen == lookaheadSize && MIN_MATCH - 1 <= longest < 128
      ensures Answer(input, lookaheadPos, dictSize, matchDist, matchLen, longest) && longest <= matchLen
    {
      hide Window, At, IsMatch;
      matchDist, matchLen := 0, longest;
      var pos := At(lookaheadPos);
      var probePos: nat, probesLeft: nat := pos, if matchLen >= 32 then maxProbesLong else maxProbes;
      var c0, c1 := dict[pos + matchLen], dict[pos + matchLen - 1];
      if maxMatchLen <= matchLen {
        return;
      }
      while true
        invariant probePos < DICT_SIZE && probesLeft >= 1 && longest <= matchLen < maxMatchLen
        invariant Answer(input, lookaheadPos, dictSize, matchDist, matchLen, longest)
        decreases probesLeft
      {
        var found, ended, dist: nat := false, false, 0;
        ghost var before := probesLeft;
        while !found
          invariant probePos < DICT_SIZE && 1 <= probesLeft <= before && (found ==> probesLeft < before)
          invariant found ==> dist <= maxDist && probePos == At(lookaheadPos - dist)
          decreases probesLeft, !found
        {
          probesLeft := probesLeft - 1;
          if probesLeft == 0 {
            return;
          }
          found, ended, dist, probePos := Probe(maxDist, matchLen, c0, c1, probePos);
          if ended {
            return;
          }
        }
        if dist == 0 {
          break;
        }
        var probeLen := Compare(probePos, dist, maxMatchLen);
        if probeLen > matchLen {
          matchDist, matchLen := dist, probeLen;
          if matchLen == maxMatchLen {
            return;
          }
          c0, c1 := dict[pos + matchLen], dict[pos + matchLen - 1];
        }
      }
    }

    /** Lines 2545 to 2562: the match to consider at this position, if any. */
    method Choose() returns (dist: nat, len: nat)
      requires Valid() && lookaheadSize >= 1
      ensures Answer(input, lookaheadPos, dictSize, dist, len, if savedLen > 0 then savedLen else MIN_MATCH - 1)
      ensures len <= lookaheadSize || dist == 0
      ensures forceRaw ==> dist == 0
    {
      hide Window, At, Parsed, Inflate, Size;
      if savedLen > 0 { SavedIsShort(codes, input, blockStart, lookaheadPos, savedLen, savedDist, savedLit); }
      dist, len := 0, if savedLen > 0 then savedLen else MIN_MATCH - 1;
      var pos := At(lookaheadPos);
      if rleMatches || forceRaw {
        if dictSize > 0 && !forceRaw {
          var c := dict[At(lookaheadPos - 1)];
          ReadAhead(dict[..], input, lookaheadPos - dictSize, |input|, lookaheadPos - 1, 0);
          len := 0;
          while len < lookaheadSize
            invariant len <= lookaheadSize && IsMatch(input, lookaheadPos, len, 1)
            invariant forall k :: lookaheadPos - 1 <= k < lookaheadPos + len ==> input[k] == c
          {
            ReadAhead(dict[..], input, lookaheadPos - dictSize, |input|, lookaheadPos, len);
            if dict[pos + len] != c {
              break;
            }
            len := len + 1;
          }
          if len < MIN_MATCH { len := 0; } else { dist := 1; }
        }
      } else {
        dist, len := FindMatch(dictSize, lookaheadSize, len);
      }
      if (len == MIN_MATCH && dist >= 8 * 1024) || pos == dist || (filterMatches && len <= 5) {
        dist, len := 0, 0;
      }
    }
  
    // -------------------------------------------------------------- recording

    /** `tdefl_record_literal`. */
    method RecordLiteral(lit: Byte)
      requires Accounted() && codePos <= CODE_BUF_SIZE - 6
      modifies this`codes, this`codePos, this`flagsLeft, this`totalBytes
      ensures Accounted() && codes == old(codes) + [Literal(lit)] && codePos <= old(codePos) + 2
    {
      SizeConcat(codes, [Literal(lit)]);
      totalBytes := totalBytes + 1;
      codes := codes + [Literal(lit)];
      codePos := codePos + 1;
      CountFlag();
    }

    /** `tdefl_record_match`. */
    method RecordMatch(len: nat, dist: nat)
      requires Accounted() && codePos <= CODE_BUF_SIZE - 6
      requires MIN_MATCH <= len <= MAX_MATCH && 1 <= dist <= DICT_SIZE
      modifies this`codes, this`codePos, this`flagsLeft, this`totalBytes
      ensures Accounted() && codes == old(codes) + [Match(len, dist)] && codePos <= old(codePos) + 4
    {
      SizeConcat(codes, [Match(len, dist)]);
      totalBytes := totalBytes + len;
      codes := codes + [Match(len, dist)];
      codePos := codePos + 3;
      CountFlag();
    }

    /** Eight flags fill a byte of the buffer. */
    method CountFlag()
      requires 1 <= flagsLeft <= 8
      modifies this`codePos, this`flagsLeft
      ensures 1 <= flagsLeft <= 8 && old(codePos) <= codePos <= old(codePos) + 1
    {
      flagsLeft := flagsLeft - 1;
      if flagsLeft == 0 {
        flagsLeft, codePos := 8, codePos + 1;
      }
    }

    /** Lines 2563 to 2594: records, defers or drops what `Choose` found, and says how far to move on. */
    method Parse(dist: nat, len: nat) returns (move: nat)
      requires Valid() && lookaheadSize >= 1
      requires Answer(input, lookaheadPos, dictSize, dist, len, if savedLen > 0 then savedLen else MIN_MATCH - 1)
      requires forceRaw ==> dist == 0
      modifies this`codes, this`codePos, this`flagsLeft, this`totalBytes, this`savedDist, this`savedLen, this`savedLit
      ensures Accounted() && codePos <= old(codePos) + 6 && 1 <= move <= lookaheadSize
      ensures Parsed(codes, input, blockStart, lookaheadPos + move, savedLen, savedDist, savedLit)
      ensures rleMatches || forceRaw ==> savedLen == 0
    {
      hide Window, At, Parsed, Inflate, Size, IsMatch;
      var pos := At(lookaheadPos);
      move := 1;
      ReadAhead(dict[..], input, lookaheadPos - dictSize, |input|, lookaheadPos, 0);
      if savedLen > 0 {
        if len > savedLen {
          PendingRecordedAsLiteral(codes, input, blockStart, lookaheadPos, savedLen, savedDist, savedLit);
          RecordLiteral(savedLit);
          if len >= 128 {
            MatchRecorded(codes, input, blockStart, lookaheadPos, len, dist, savedDist, savedLit);
            RecordMatch(len, dist);
            savedLen := 0;
            move := len;
          } else {
            MatchSaved(codes, input, blockStart, lookaheadPos, len, dist, savedDist, savedLit);
            savedLit, savedDist, savedLen := dict[pos], dist, len;
          }
        } else {
          PendingRecordedAsMatch(codes, input, blockStart, lookaheadPos, savedLen, savedDist, savedLit);
          SavedIsShort(codes, input, blockStart, lookaheadPos, savedLen, savedDist, savedLit);
          RecordMatch(savedLen, savedDist);
          move := savedLen - 1;
          savedLen := 0;
        }
      } else if dist == 0 {
        LiteralRecorded(codes, input, blockStart, lookaheadPos, savedDist, savedLit);
        RecordLiteral(dict[pos]);
      } else if greedy || rleMatches || len >= 128 {
        MatchRecorded(codes, input, blockStart, lookaheadPos, len, dist, savedDist, savedLit);
        RecordMatch(len, dist);
        move := len;
      } else {
        MatchSaved(codes, input, blockStart, lookaheadPos, len, dist, savedDist, savedLit);
        savedLit, savedDist, savedLen := dict[pos], dist, len;
      }
    }
  
    // -------------------------------------------------------------- blocks

    /** The bytes of a stored block (lines 2203 to 2206), read back from the dictionary. */
    method StoredBytes() returns (bytes: seq<Byte>)
      requires Reading() && blockStart + totalBytes <= lookaheadPos <= blockStart + dictSize
      ensures bytes == input[blockStart..blockStart + totalBytes] && |bytes| < 65536
    {
      hide Window, At;
      bytes := [];
      for i := 0 to totalBytes
        invariant bytes == input[blockStart..blockStart + i]
      {
        ReadAhead(dict[..], input, lookaheadPos - dictSize, |input|, blockStart + i, 0);
        bytes := bytes + [dict[At(blockStart + i)]];
      }
    }

    /** A block whose coded form is not shorter than its bytes is stored, as long as the dictionary still has
        all of them (lines 2189 to 2207). */
    method ChooseForm(expands: bool) returns (b: Block)
      requires Reading() && Accounted() && codePos < CODE_BUF_SIZE
      requires Parsed(codes, input, blockStart, lookaheadPos, savedLen, savedDist, savedLit)
      requires Inflate(blocks) == Bytes(input[..blockStart]) && (rleMatches || forceRaw ==> savedLen == 0)
      ensures blockStart + totalBytes <= |input| && Inflate(blocks + [b]) == Bytes(input[..blockStart + totalBytes])
      ensures Sendable(b) && (b == Coded(codes) || b.Stored?)
    {
      hide Window, At, Parsed, Inflate, Size, Continues;
      ParsedSize(codes, input, blockStart, lookaheadPos, savedLen, savedDist, savedLit);
      ghost var at := blockStart + totalBytes;
      var kept := lookaheadPos - blockStart <= dictSize;
      if (forceRaw || (totalBytes > 0 && expands)) && kept {
        var bytes := StoredBytes();
        StoredBlock(blocks, bytes, input, blockStart, at);
        b := Stored(bytes);
      } else {
        CodedBlock(blocks, codes, input, blockStart, at);
        b := Coded(codes);
      }
    }

    /** Neither the dictionary nor the positions in it depend on the codes. */
    twostate lemma StillReading()
      requires old(Reading()) && unchanged(dict) && unchanged(next) && unchanged(hash)
      requires unchanged(`dictSize) && unchanged(`lookaheadPos) && unchanged(`lookaheadSize) && unchanged(`input)
      ensures Reading()
    {
      hide Window;
      assert dict[..] == old(dict[..]);
    }

    /** `tdefl_flush_block`. */
    method FlushBlock(expands: bool)
      requires Reading() && Accounted() && codePos < CODE_BUF_SIZE
      requires Parsed(codes, input, blockStart, lookaheadPos, savedLen, savedDist, savedLit)
      requires Inflate(blocks) == Bytes(input[..blockStart]) && AllSendable(blocks)
      requires rleMatches || forceRaw ==> savedLen == 0
      modifies this`blocks, this`codes, this`codePos, this`flagsLeft, this`totalBytes, this`blockStart
      ensures Valid()
      ensures codes == [] && blockStart == if savedLen > 0 then lookaheadPos - 1 else lookaheadPos
      ensures |blocks| == |old(blocks)| + 1 && blocks[..|blocks| - 1] == old(blocks)
      ensures blocks[|blocks| - 1] == Coded(old(codes)) || blocks[|blocks| - 1].Stored?
    {
      hide Shape, Sizes, Reading, Window, At, Parsed, Inflate, Size, Continues, Sendable, AllSendable;
      var b := ChooseForm(expands);
      OneMoreSendable(blocks, b);
      blocks := blocks + [b];
      ParsedSize(codes, input, blockStart, lookaheadPos, savedLen, savedDist, savedLit);
      NewBlock(codes, input, blockStart, lookaheadPos, savedLen, savedDist, savedLit);
      codes, codePos, flagsLeft := [], 1, 8;
      blockStart := blockStart + totalBytes;
      totalBytes := 0;
      NoBytes();
      StillReading();
    }

    // -------------------------------------------------------------- the loop

    /** Lines 2596 to 2599. */
    method Advance(move: nat)
      requires Reading() && move <= lookaheadSize
      modifies this`lookaheadPos, this`lookaheadSize, this`dictSize
      ensures Reading() && lookaheadPos == old(lookaheadPos) + move && lookaheadSize == old(lookaheadSize) - move
    {
      hide Window;
      var size: nat := if dictSize + move < DICT_SIZE then dictSize + move else DICT_SIZE;
      WindowShrinks(dict[..], input, lookaheadPos - dictSize, |input|, lookaheadPos + move - size);
      lookaheadPos := lookaheadPos + move;
      lookaheadSize := lookaheadSize - move;
      dictSize := size;
    }

    /** One round of the loop of lines 2502 to 2609: a decision, a move, and a new block when it is time. */
    method Step(expands: seq<Token> -> bool) returns (flushed: bool)
      requires Valid() && lookaheadSize >= 1
      modifies this`blocks, this`codes, this`codePos, this`flagsLeft, this`totalBytes, this`blockStart
      modifies this`savedDist, this`savedLen, this`savedLit, this`lookaheadPos, this`lookaheadSize, this`dictSize
      ensures Valid() && lookaheadSize < old(lookaheadSize) && lookaheadPos + lookaheadSize == |input|
    {
      hide Window, At, Parsed, Inflate, Size, Continues, Answer;
      var dist, len := Choose();
      var move := Parse(dist, len);
      Advance(move);
      flushed := codePos > CODE_BUF_SIZE - 8
                 || (totalBytes > 31 * 1024 && (codePos * 115 / 128 >= totalBytes || forceRaw));
      if flushed {
        FlushBlock(expands(codes));
      }
    }

    /** `tdefl_compress_normal`; `full` says after which blocks the output buffer has no room left. */
    method CompressNormal(src: seq<Byte>, flush: bool, expands: seq<Token> -> bool, full: nat -> bool) returns (left: seq<Byte>, stopped: bool)
      requires Valid()
      modifies this, dict, next, hash
      ensures Valid() && |left| <= |src| && input == old(input) + src[..|src| - |left|] && src[|src| - |left|..] == left
      ensures !stopped ==> left == [] && (flush ==> lookaheadSize == 0)
      ensures stopped ==> exists b: nat :: full(b)
    {
      hide Window, Parsed, Inflate, Size, Continues;
      left, stopped := src, false;
      while |left| > 0 || (flush && lookaheadSize > 0)
        invariant Valid() && |left| <= |src| && src[|src| - |left|..] == left
        invariant input == old(input) + src[..|src| - |left|]
        decreases |left| + lookaheadSize
      {
        ghost var before := left;
        var n := Fill(left);
        left := left[n..];
        assert src[..|src| - |before|] + before[..n] == src[..|src| - |left|];
        if !flush && lookaheadSize < MAX_MATCH {
          break;
        }
        var flushed := Step(expands);
        if flushed && full(|blocks|) {
          stopped := true;
          return;
        }
      }
    }
  
    /** The empty stored block behind which a flush in the middle of a stream ends with a byte (line 2224). */
    method MarkFlush()
      requires Valid()
      modifies this`blocks
      ensures Valid() && blocks == old(blocks) + [Stored([])]
    {
      hide Window, Parsed, Inflate, Size, Continues;
      ParsedSize(codes, input, blockStart, lookaheadPos, savedLen, savedDist, savedLit);
      StoredBlock(blocks, [], input, blockStart, blockStart);
      blocks := blocks + [Stored([])];
    }

    /** `tdefl_compress`: a flush that has used up its input ends the block; after a final flush the blocks
        inflate to everything that was put in. */
    method Compress(src: seq<Byte>, flush: Flush, expands: seq<Token> -> bool, full: nat -> bool) returns (left: seq<Byte>, finished: bool)
      requires Valid()
      modifies this, dict, next, hash
      ensures Valid() && |left| <= |src| && input == old(input) + src[..|src| - |left|] && src[|src| - |left|..] == left
      ensures finished ==> flush == Finish && left == [] && Inflate(blocks) == Bytes(input) && blocks != []
      ensures (forall b: nat :: !full(b)) ==> left == [] && (flush == Finish ==> finished)
      ensures (flush == SyncFlush || flush == FullFlush) && (forall b: nat :: !full(b)) ==>
                Inflate(blocks) == Bytes(input) && blocks != [] && blocks[|blocks| - 1] == Stored([])
    {
      hide Window, Parsed, Inflate, Size, Continues;
      var stopped;
      left, stopped := CompressNormal(src, flush != NoFlush, expands, full);
      finished := false;
      if flush != NoFlush && lookaheadSize == 0 && left == [] && !stopped {
        NothingPending(this);
        FlushBlock(expands(codes));
        assert input[..blockStart] == input;
        finished := flush == Finish;
        if flush != Finish { MarkFlush(); }
        if flush == FullFlush {
          ClearChains();
          WindowShrinks(dict[..], input, lookaheadPos - dictSize, |input|, lookaheadPos);
          dictSize := 0;
        }
      }
    }

    /** Forgets all positions. */
    method ClearChains()
      requires Shape()
      modifies next, hash
      ensures Shape()
    {
      for i := 0 to HASH_SIZE
        invariant Shape()
      {
        hash[i] := 0;
      }
      for i := 0 to DICT_SIZE
        invariant Shape()
      {
        next[i] := 0;
      }
    }
  }

  datatype Flush = NoFlush | SyncFlush | FullFlush | Finish

  /** What one call of `tdefl_compress` is given. */
  datatype Call = Call(bytes: seq<Byte>, flush: Flush)

  /** Nothing but another final flush is accepted after the first, so only the last call has one. */
  type Chunk = c: Call | c.flush != Finish
    witness Call([], NoFlush)

  ghost function Joined(chunks: seq<Chunk>): seq<Byte> {
    if chunks == [] then [] else Joined(chunks[..|chunks| - 1]) + chunks[|chunks| - 1].bytes
  }

  /** Compressing in any number of calls, with any flushes in between and a final one at the end, when the output never
      runs full: the blocks inflate to everything that was put in. */
  method CompressBuffer(chunks: seq<Chunk>, last: seq<Byte>, expands: seq<Token> -> bool, greedy: bool, rleMatches: bool, forceRaw: bool,
                        filterMatches: bool, probes: nat, chains: seq<nat>) returns (blocks: seq<Block>)
    requires probes <= 4095 && |chains| == HASH_SIZE && forall i :: 0 <= i < HASH_SIZE ==> chains[i] < 65536
    ensures Inflate(blocks) == Bytes(Joined(chunks) + last) && blocks != [] && AllSendable(blocks)
  {
    hide Inflate, Compressor.Valid;
    var c := new Compressor(greedy, rleMatches, forceRaw, filterMatches, probes, chains);
    for i := 0 to |chunks|
      invariant c.Valid() && c.input == Joined(chunks[..i]) && fresh(c) && fresh(c.dict) && fresh(c.next) && fresh(c.hash)
    {
      var bytes := chunks[i].bytes;
      var _, _ := c.Compress(bytes, chunks[i].flush, expands, _ => false);
      assert bytes[..|bytes|] == bytes && chunks[..i + 1][..i] == chunks[..i];
    }
    assert chunks[..|chunks|] == chunks && last[..|last|] == last;
    var _, _ := c.Compress(last, Finish, expands, _ => false);
    Sendables(c);
    blocks := c.blocks;
  }

  lemma Sendables(c: Compressor)
    requires c.Valid()
    ensures AllSendable(c.blocks)
  {
  }

  /** With the lookahead used up, no match is pending. */
  lemma NothingPending(c: Compressor)
    requires c.Valid() && c.lookaheadSize == 0
    ensures c.savedLen == 0
  {
  }

  lemma ParsedSize(tokens: seq<Token>, input: seq<Byte>, start: nat, pos: nat, savedLen: nat, savedDist: nat, savedLit: Byte)
    requires Parsed(tokens, input, start, pos, savedLen, savedDist, savedLit)
    ensures start + Size(tokens) == if savedLen > 0 then pos - 1 else pos
    ensures Continues(tokens, input, start, start + Size(tokens)) && start + Size(tokens) <= |input|
  {
    ContinuesSize(tokens, input, start, if savedLen > 0 then pos - 1 else pos);
  }

  lemma NewBlock(tokens: seq<Token>, input: seq<Byte>, start: nat, pos: nat, savedLen: nat, savedDist: nat, savedLit: Byte)
    requires Parsed(tokens, input, start, pos, savedLen, savedDist, savedLit)
    ensures Parsed([], input, start + Size(tokens), pos, savedLen, savedDist, savedLit)
  {
    ContinuesSize(tokens, input, start, if savedLen > 0 then pos - 1 else pos);
  }

  lemma OneMoreSendable(blocks: seq<Block>, b: Block)
    requires AllSendable(blocks) && Sendable(b)
    ensures AllSendable(blocks + [b])
  {
    hide Sendable;
  }

  lemma NoBytes()
    ensures Size([]) == 0
  {
  }

  lemma SavedIsShort(tokens: seq<Token>, input: seq<Byte>, start: nat, pos: nat, savedLen: nat, savedDist: nat, savedLit: Byte)
    requires Parsed(tokens, input, start, pos, savedLen, savedDist, savedLit) && savedLen > 0
    ensures MIN_MATCH <= savedLen < 128 && savedLen <= |input| - pos + 1 && 1 <= savedDist <= DICT_SIZE
  {
  }

  /** The oldest position still in a window of 32768 bytes. */
  ghost function Lowest(lo: nat, hi: nat): (r: nat)
  {
    if hi > lo + DICT_SIZE then hi - DICT_SIZE else lo
  }

  lemma LowestStart(pos: nat, dictSize: nat, hi: nat)
    requires dictSize <= pos <= hi <= pos - dictSize + DICT_SIZE
    ensures Lowest(pos - dictSize, hi) == pos - dictSize
  {
  }

  lemma LowestNext(lo: nat, hi: nat)
    requires lo <= hi
    ensures Lowest(lo, hi) <= Lowest(lo, hi + 1) <= hi < Lowest(lo, hi + 1) + DICT_SIZE
  {
  }

  lemma LowestKept(pos: nat, dictSize: nat, lookahead: nat)
    requires dictSize <= pos && lookahead <= MAX_MATCH
    ensures var room := DICT_SIZE - lookahead;
            var kept := if room < dictSize then room else dictSize;
            Lowest(pos - dictSize, pos + lookahead) <= pos - kept
  {
  }
}
