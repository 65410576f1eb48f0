/** Word-level rearrangements shared by the readers and writers of
    src/payload.rs. A word is `BYTES_IN_WORD` = 4 bytes; like Rust's
    `chunks_exact`, every function here ignores a trailing partial word. */
module Words {
  import opened Bytes
  import Hex

  const BYTES_IN_WORD: nat := 4
  const BITS_IN_WORD: nat := 32

  /** `bs.chunks_exact(4).map(|w| w.iter().rev()).flatten()`: the bytes of
      every whole word in reverse order. */
  function ReverseEachWord(bs: seq<byte>): (r: seq<byte>)
    ensures |r| == |bs| / 4 * 4
  {
    if |bs| < 4 then [] else [bs[3], bs[2], bs[1], bs[0]] + ReverseEachWord(bs[4..])
  }

  /** Inside every whole word the byte order is reversed. */
  lemma {:induction false} ReverseEachWordAt(bs: seq<byte>, w: nat, j: nat)
    requires w < |bs| / 4 && j < 4
    ensures ReverseEachWord(bs)[4 * w + j] == bs[4 * w + 3 - j]
  {
    if w > 0 {
      ReverseEachWordAt(bs[4..], w - 1, j);
    }
  }

  lemma {:induction false} ReverseEachWordAppend(a: seq<byte>, b: seq<byte>)
    requires |a| % 4 == 0
    ensures ReverseEachWord(a + b) == ReverseEachWord(a) + ReverseEachWord(b)
  {
    if a != [] {
      assert (a + b)[4..] == a[4..] + b;
      ReverseEachWordAppend(a[4..], b);
    } else {
      assert a + b == b;
    }
  }

  /** Swapping the bytes of every word twice gives back a word-aligned
      sequence. */
  lemma {:induction false} ReverseEachWordInvolution(bs: seq<byte>)
    requires |bs| % 4 == 0
    ensures ReverseEachWord(ReverseEachWord(bs)) == bs
  {
    if bs != [] {
      var head := [bs[3], bs[2], bs[1], bs[0]];
      ReverseEachWordAppend(head, ReverseEachWord(bs[4..]));
      ReverseEachWordInvolution(bs[4..]);
      assert bs == bs[..4] + bs[4..];
    }
  }

  /** `chunk.chunks_exact(4).rev()` flattened: the whole words of `chunk`,
      last word first, each word's bytes kept in order. */
  function ReverseWords(chunk: seq<byte>): (r: seq<byte>)
    ensures |r| == |chunk| / 4 * 4
  {
    if |chunk| < 4 then [] else ReverseWords(chunk[4..]) + chunk[..4]
  }

  /** Word `w` of the result is word `n - 1 - w` of the input. */
  lemma {:induction false} ReverseWordsAt(chunk: seq<byte>, w: nat, j: nat)
    requires w < |chunk| / 4 && j < 4
    ensures ReverseWords(chunk)[4 * w + j] == chunk[4 * (|chunk| / 4 - 1 - w) + j]
  {
    var n := |chunk| / 4;
    DivMinusOne(|chunk|, 4);
    assert |chunk[4..]| / 4 == n - 1;
    var rest := ReverseWords(chunk[4..]);
    assert |rest| == 4 * (n - 1);
    assert ReverseWords(chunk) == rest + chunk[..4];
    if w < n - 1 {
      ReverseWordsAt(chunk[4..], w, j);
      assert chunk[4..][4 * (n - 2 - w) + j] == chunk[4 * (n - 1 - w) + j];
    } else {
      assert 4 * w + j == |rest| + j;
    }
  }

  lemma {:induction false} ReverseWordsAppend(a: seq<byte>, b: seq<byte>)
    requires |a| % 4 == 0
    ensures ReverseWords(a + b) == ReverseWords(b) + ReverseWords(a)
  {
    if a == [] {
      assert a + b == b;
    } else {
      assert (a + b)[4..] == a[4..] + b;
      assert (a + b)[..4] == a[..4];
      ReverseWordsAppend(a[4..], b);
    }
  }

  /** Reversing the word order twice gives back a word-aligned chunk. */
  lemma {:induction false} ReverseWordsInvolution(chunk: seq<byte>)
    requires |chunk| % 4 == 0
    ensures ReverseWords(ReverseWords(chunk)) == chunk
  {
    if chunk != [] {
      var rest := ReverseWords(chunk[4..]);
      ReverseWordsAppend(rest, chunk[..4]);
      assert ReverseWords(chunk[..4]) == chunk[..4] by {
        assert chunk[..4][4..] == [];
      }
      ReverseWordsInvolution(chunk[4..]);
      assert chunk == chunk[..4] + chunk[4..];
    }
  }

  /** `bs.chunks_exact(4 * wordsPerChunk)` with the word order of every chunk
      reversed, concatenated; a trailing partial chunk is ignored. */
  function ReverseChunkWords(bs: seq<byte>, wordsPerChunk: nat): seq<byte>
    requires wordsPerChunk >= 1
    decreases |bs|
  {
    var size := 4 * wordsPerChunk;
    if |bs| < size then [] else ReverseWords(bs[..size]) + ReverseChunkWords(bs[size..], wordsPerChunk)
  }

  /** Only the whole chunks are kept. */
  lemma {:induction false} ReverseChunkWordsLength(bs: seq<byte>, wordsPerChunk: nat)
    requires wordsPerChunk >= 1
    ensures |bs| % (4 * wordsPerChunk) <= |bs|
    ensures |ReverseChunkWords(bs, wordsPerChunk)| == |bs| - |bs| % (4 * wordsPerChunk)
    decreases |bs|
  {
    var size := 4 * wordsPerChunk;
    if |bs| < size {
      DivUnique(|bs|, size, 0, |bs|);
    } else {
      ReverseChunkWordsLength(bs[size..], wordsPerChunk);
      DivMinusOne(|bs|, size);
    }
  }

  lemma {:induction false} ReverseChunkWordsInvolution(bs: seq<byte>, wordsPerChunk: nat)
    requires wordsPerChunk >= 1 && |bs| % (4 * wordsPerChunk) == 0
    ensures ReverseChunkWords(ReverseChunkWords(bs, wordsPerChunk), wordsPerChunk) == bs
    decreases |bs|
  {
    var size := 4 * wordsPerChunk;
    if |bs| >= size {
      var head := ReverseWords(bs[..size]);
      var rest := ReverseChunkWords(bs[size..], wordsPerChunk);
      DivMinusOne(|bs|, size);
      assert (head + rest)[..size] == head;
      assert (head + rest)[size..] == rest;
      ReverseWordsInvolution(bs[..size]);
      ReverseChunkWordsInvolution(bs[size..], wordsPerChunk);
      assert bs == bs[..size] + bs[size..];
    } else {
      DivUnique(|bs|, size, 0, |bs|);
    }
  }

  /** A chunk-aligned prefix is rearranged on its own. */
  lemma {:induction false} ReverseChunkWordsAppend(a: seq<byte>, b: seq<byte>, wordsPerChunk: nat)
    requires wordsPerChunk >= 1 && |a| % (4 * wordsPerChunk) == 0
    ensures ReverseChunkWords(a + b, wordsPerChunk) == ReverseChunkWords(a, wordsPerChunk) + ReverseChunkWords(b, wordsPerChunk)
    decreases |a|
  {
    var size := 4 * wordsPerChunk;
    if a == [] {
      assert a + b == b;
      DivUnique(0, size, 0, 0);
    } else {
      ModZeroAtLeast(|a|, size);
      DivMinusOne(|a|, size);
      assert (a + b)[..size] == a[..size];
      assert (a + b)[size..] == a[size..] + b;
      ReverseChunkWordsAppend(a[size..], b, wordsPerChunk);
    }
  }

  /** A single whole chunk has its word order reversed. */
  lemma ReverseChunkWordsOne(chunk: seq<byte>, wordsPerChunk: nat)
    requires wordsPerChunk >= 1 && |chunk| == 4 * wordsPerChunk
    ensures ReverseChunkWords(chunk, wordsPerChunk) == ReverseWords(chunk)
  {
    var size := 4 * wordsPerChunk;
    assert chunk[..size] == chunk;
    DivUnique(0, size, 0, 0);
    assert ReverseChunkWords(chunk[size..], wordsPerChunk) == [];
  }

  /** Extending a chunk-aligned prefix by one more chunk appends that
      chunk's words in reverse order. */
  lemma ReverseChunkWordsExtend(bs: seq<byte>, offset: nat, wordsPerChunk: nat)
    requires wordsPerChunk >= 1 && offset % (4 * wordsPerChunk) == 0
    requires offset + 4 * wordsPerChunk <= |bs|
    ensures ReverseChunkWords(bs[..offset + 4 * wordsPerChunk], wordsPerChunk)
         == ReverseChunkWords(bs[..offset], wordsPerChunk) + ReverseWords(bs[offset .. offset + 4 * wordsPerChunk])
  {
    var chunk := bs[offset .. offset + 4 * wordsPerChunk];
    assert bs[..offset + 4 * wordsPerChunk] == bs[..offset] + chunk;
    ReverseChunkWordsAppend(bs[..offset], chunk, wordsPerChunk);
    ReverseChunkWordsOne(chunk, wordsPerChunk);
  }

  /** Word `w` of chunk `c` of the result is word `W - 1 - w` of chunk `c`
      of the input. */
  lemma ReverseChunkWordsAt(bs: seq<byte>, wordsPerChunk: nat, c: nat, w: nat, j: nat)
    requires wordsPerChunk >= 1 && w < wordsPerChunk && j < 4
    requires (c + 1) * (4 * wordsPerChunk) <= |bs|
    ensures 4 * wordsPerChunk * c + 4 * w + j < |ReverseChunkWords(bs, wordsPerChunk)|
    ensures ReverseChunkWords(bs, wordsPerChunk)[4 * wordsPerChunk * c + 4 * w + j]
         == bs[4 * wordsPerChunk * c + 4 * (wordsPerChunk - 1 - w) + j]
  {
    var size := 4 * wordsPerChunk;
    var o := size * c;
    assert (c + 1) * size == o + size;
    DivUnique(o, size, c, 0);
    ReverseChunkWordsChunk(bs, wordsPerChunk, o, 4 * w + j);
    DivUnique(size, 4, wordsPerChunk, 0);
    ReverseWordsAt(bs[o .. o + size], w, j);
  }

  /** Byte `i` of the chunk starting at the aligned offset `o` of the
      result is byte `i` of that chunk with its word order reversed. */
  lemma ReverseChunkWordsChunk(bs: seq<byte>, wordsPerChunk: nat, o: nat, i: nat)
    requires wordsPerChunk >= 1 && o % (4 * wordsPerChunk) == 0
    requires o + 4 * wordsPerChunk <= |bs| && i < 4 * wordsPerChunk
    ensures o + i < |ReverseChunkWords(bs, wordsPerChunk)|
    ensures ReverseChunkWords(bs, wordsPerChunk)[o + i] == ReverseWords(bs[o .. o + 4 * wordsPerChunk])[i]
  {
    var prefix, suffix := bs[..o], bs[o..];
    assert bs == prefix + suffix;
    ReverseChunkWordsAppend(prefix, suffix, wordsPerChunk);
    ReverseChunkWordsLength(prefix, wordsPerChunk);
    assert suffix[..4 * wordsPerChunk] == bs[o .. o + 4 * wordsPerChunk];
    ReverseChunkWordsFirst(suffix, wordsPerChunk, i);
    IndexAfter(ReverseChunkWords(prefix, wordsPerChunk), ReverseChunkWords(suffix, wordsPerChunk), i);
  }

  /** Byte `i` of the first chunk of the result is byte `i` of the first
      chunk with its word order reversed. */
  lemma ReverseChunkWordsFirst(bs: seq<byte>, wordsPerChunk: nat, i: nat)
    requires wordsPerChunk >= 1 && 4 * wordsPerChunk <= |bs| && i < 4 * wordsPerChunk
    ensures i < |ReverseChunkWords(bs, wordsPerChunk)|
    ensures ReverseChunkWords(bs, wordsPerChunk)[i] == ReverseWords(bs[..4 * wordsPerChunk])[i]
  {
    var size := 4 * wordsPerChunk;
    DivUnique(size, 4, wordsPerChunk, 0);
    var reversed := ReverseWords(bs[..size]);
    assert |reversed| == size;
    assert ReverseChunkWords(bs, wordsPerChunk) == reversed + ReverseChunkWords(bs[size..], wordsPerChunk);
  }

  /** Indexing past a prefix. */
  lemma IndexAfter<T>(head: seq<T>, tail: seq<T>, i: nat)
    requires i < |tail|
    ensures (head + tail)[|head| + i] == tail[i]
  {
  }

  /** The input position `ReverseChunkWords` takes byte `k` of its result
      from: same chunk, mirrored word, same byte within the word. */
  function MirroredIndex(k: nat, wordsPerChunk: nat): int
    requires wordsPerChunk >= 1
  {
    var r := k % (4 * wordsPerChunk);
    k - r + 4 * (wordsPerChunk - 1 - r / 4) + r % 4
  }

  /** Byte `k` of a run of `n` chunks of `W` words lies in chunk `k / 4W`,
      word `(k % 4W) / 4`, position `k % 4` of that word. */
  lemma ChunkCoordinates(k: nat, wordsPerChunk: nat, n: nat)
    requires wordsPerChunk >= 1 && k < n * (4 * wordsPerChunk)
    ensures var size := 4 * wordsPerChunk;
      && 0 <= k / size && (k / size + 1) * size <= n * size
      && k == size * (k / size) + k % size
      && k % size / 4 < wordsPerChunk
      && k % size == 4 * (k % size / 4) + k % size % 4
  {
    var size := 4 * wordsPerChunk;
    var c, r := k / size, k % size;
    DivUnique(k, size, c, r);
    DivNonNegative(k, size);
    assert c < n;
    assert (c + 1) * size <= n * size by {
      MulAtLeast(n - c, size);
      assert (n - c) * size == n * size - c * size;
    }
  }

  lemma ReverseChunkWordsIndex(bs: seq<byte>, wordsPerChunk: nat, k: nat)
    requires wordsPerChunk >= 1 && |bs| % (4 * wordsPerChunk) == 0 && k < |bs|
    ensures 0 <= MirroredIndex(k, wordsPerChunk) < |bs|
    ensures k < |ReverseChunkWords(bs, wordsPerChunk)|
    ensures ReverseChunkWords(bs, wordsPerChunk)[k] == bs[MirroredIndex(k, wordsPerChunk)]
  {
    var size := 4 * wordsPerChunk;
    var n := |bs| / size;
    RoundDown(|bs|, size);
    ChunkCoordinates(k, wordsPerChunk, n);
    var c, r := k / size, k % size;
    var w, j := r / 4, r % 4;
    assert MirroredIndex(k, wordsPerChunk) == size * c + 4 * (wordsPerChunk - 1 - w) + j;
    ReverseChunkWordsAt(bs, wordsPerChunk, c, w, j);
    assert 4 * wordsPerChunk * c == size * c;
  }

  /** On a chunk-aligned sequence every byte of the result comes from the
      mirrored word of its chunk. */
  lemma ReverseChunkWordsMirrors(bs: seq<byte>, wordsPerChunk: nat)
    requires wordsPerChunk >= 1 && |bs| % (4 * wordsPerChunk) == 0
    ensures |ReverseChunkWords(bs, wordsPerChunk)| == |bs|
    ensures forall k :: 0 <= k < |bs| ==>
      && 0 <= MirroredIndex(k, wordsPerChunk) < |bs|
      && ReverseChunkWords(bs, wordsPerChunk)[k] == bs[MirroredIndex(k, wordsPerChunk)]
  {
    ReverseChunkWordsLength(bs, wordsPerChunk);
    forall k | 0 <= k < |bs|
      ensures 0 <= MirroredIndex(k, wordsPerChunk) < |bs|
      ensures k < |ReverseChunkWords(bs, wordsPerChunk)|
      ensures ReverseChunkWords(bs, wordsPerChunk)[k] == bs[MirroredIndex(k, wordsPerChunk)]
    {
      ReverseChunkWordsIndex(bs, wordsPerChunk, k);
    }
  }

  /** `bs.chunks_exact(4).map(hex::encode)`: one lower-case eight-digit
      string per whole word. */
  function EncodedWords(bs: seq<byte>): (ws: seq<string>)
    ensures |ws| == |bs| / 4
    ensures forall i :: 0 <= i < |ws| ==> |ws[i]| == 8
  {
    if |bs| < 4 then [] else [Hex.Encode(bs[..4])] + EncodedWords(bs[4..])
  }

  lemma {:induction false} EncodedWordsAt(bs: seq<byte>, i: nat)
    requires i < |bs| / 4
    ensures EncodedWords(bs)[i] == Hex.Encode(bs[4 * i .. 4 * i + 4])
  {
    var tail := bs[4..];
    var ws := EncodedWords(bs);
    assert ws == [Hex.Encode(bs[..4])] + EncodedWords(tail);
    if i == 0 {
      assert bs[4 * i .. 4 * i + 4] == bs[..4];
    } else {
      assert |tail| / 4 == |bs| / 4 - 1;
      EncodedWordsAt(tail, i - 1);
      var word := bs[4 * i .. 4 * i + 4];
      assert tail[4 * (i - 1) .. 4 * (i - 1) + 4] == word;
      calc {
        ws[i];
        EncodedWords(tail)[i - 1];
        Hex.Encode(word);
      }
    }
  }

  /** Encoding word by word respects a word-aligned split. */
  lemma {:induction false} EncodedWordsAppend(a: seq<byte>, b: seq<byte>)
    requires |a| % 4 == 0
    ensures EncodedWords(a + b) == EncodedWords(a) + EncodedWords(b)
    decreases |a|
  {
    if a == [] {
      assert a + b == b;
    } else {
      assert (a + b)[..4] == a[..4];
      assert (a + b)[4..] == a[4..] + b;
      EncodedWordsAppend(a[4..], b);
    }
  }
}
