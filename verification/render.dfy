/** `impl Display for Payload` (src/payload.rs:225-244): the image as lines
    of up to four lower-case words, each line led by the 32-bit address of
    its first word. The `Formatter` is not modelled: the result is the
    sequence of lines `writeln!` would write. */
module Render {
  import opened Bytes
  import Hex
  import opened Words
  import opened Image

  const PREFERRED_WORDS_ON_LINE: nat := 4

  /** The words joined with single spaces (`join(" ")`). */
  function JoinWords(ws: seq<string>): string
  {
    if ws == [] then ""
    else if |ws| == 1 then ws[0]
    else ws[0] + " " + JoinWords(ws[1..])
  }

  /** `words.chunks(4)`: groups of four words, the last one possibly
      shorter. */
  function WordGroups(words: seq<string>): (groups: seq<seq<string>>)
    ensures |groups| == (|words| + 3) / 4
  {
    seq((|words| + 3) / 4, i requires 0 <= i < (|words| + 3) / 4 =>
      words[4 * i .. if 4 * i + 4 <= |words| then 4 * i + 4 else |words|])
  }

  /** Line `i`: the address of its first word, `(start + 16 * i) as u32` in
      big-endian hex, then `": "` and the words. */
  function RenderLine(startAddress: nat, i: nat, group: seq<string>): string
  {
    Hex.Encode(ToBigEndian32(startAddress + i * PREFERRED_WORDS_ON_LINE * BYTES_IN_WORD)) + ": " + JoinWords(group)
  }

  /** What `fmt` writes, one string per `writeln!`. */
  function RenderLines(p: Payload): (lines: seq<string>)
    ensures |lines| == (|p.bytes| / 4 + 3) / 4
  {
    var groups := WordGroups(EncodedWords(p.bytes));
    seq(|groups|, i requires 0 <= i < |groups| => RenderLine(p.startAddress, i, groups[i]))
  }

  /** Eight-character words joined by spaces stand at every ninth column. */
  lemma {:induction false} JoinWordsAt(ws: seq<string>, k: nat)
    requires forall j :: 0 <= j < |ws| ==> |ws[j]| == 8
    requires k < |ws|
    ensures |JoinWords(ws)| == 9 * |ws| - 1
    ensures JoinWords(ws)[9 * k .. 9 * k + 8] == ws[k]
  {
    if |ws| > 1 {
      var rest := JoinWords(ws[1..]);
      JoinWordsAt(ws[1..], if k == 0 then 0 else k - 1);
      assert JoinWords(ws) == ws[0] + " " + rest;
      if k > 0 {
        assert JoinWords(ws)[9 * k .. 9 * k + 8] == rest[9 * (k - 1) .. 9 * (k - 1) + 8];
      }
    }
  }

  /** Every line starts with the eight hex digits of its address, truncated
      to 32 bits, and `": "`. */
  lemma LineAddress(p: Payload, i: nat)
    requires i < |RenderLines(p)|
    ensures var line := RenderLines(p)[i];
      && |line| >= 10
      && Hex.Decode(line[..8]) == Ok(ToBigEndian32(p.startAddress + 16 * i))
      && line[8..10] == ": "
  {
    var groups := WordGroups(EncodedWords(p.bytes));
    assert RenderLines(p)[i] == RenderLine(p.startAddress, i, groups[i]);
    RenderLineAddress(p.startAddress, i, groups[i]);
  }

  lemma RenderLineAddress(startAddress: nat, i: nat, group: seq<string>)
    ensures var line := RenderLine(startAddress, i, group);
      && |line| >= 10
      && Hex.Decode(line[..8]) == Ok(ToBigEndian32(startAddress + 16 * i))
      && line[8..10] == ": "
  {
    var offset := i * PREFERRED_WORDS_ON_LINE * BYTES_IN_WORD;
    assert offset == 16 * i;
    var bs := ToBigEndian32(startAddress + offset);
    assert RenderLine(startAddress, i, group) == Hex.Encode(bs) + ": " + JoinWords(group);
    LineParts(Hex.Encode(bs), JoinWords(group));
    Hex.DecodeEncode(bs);
  }

  /** The pieces of `address + ": " + values`. */
  lemma LineParts(address: string, values: string)
    ensures var line := address + ": " + values;
      && line[..|address|] == address
      && line[|address| .. |address| + 2] == ": "
      && line[|address| + 2 ..] == values
  {
  }

  /** Word `k` of a line's group stands at column `10 + 9 * k`. */
  lemma RenderLineWord(startAddress: nat, i: nat, group: seq<string>, k: nat)
    requires forall j :: 0 <= j < |group| ==> |group[j]| == 8
    requires k < |group|
    ensures var line := RenderLine(startAddress, i, group);
      10 + 9 * k + 8 <= |line| && line[10 + 9 * k .. 10 + 9 * k + 8] == group[k]
  {
    var address := Hex.Encode(ToBigEndian32(startAddress + i * PREFERRED_WORDS_ON_LINE * BYTES_IN_WORD));
    var values := JoinWords(group);
    JoinWordsAt(group, k);
    LineParts(address, values);
    var line := address + ": " + values;
    assert line[10 + 9 * k .. 10 + 9 * k + 8] == line[10..][9 * k .. 9 * k + 8];
  }

  /** Every whole word of the image is shown, in order: word `w` is on line
      `w / 4`, at column `10 + 9 * (w % 4)`. A trailing partial word is not
      shown. */
  lemma WordShown(p: Payload, w: nat)
    requires w < |p.bytes| / 4
    ensures var lines := RenderLines(p);
      && w / 4 < |lines|
      && 10 + 9 * (w % 4) + 8 <= |lines[w / 4]|
      && lines[w / 4][10 + 9 * (w % 4) .. 10 + 9 * (w % 4) + 8] == Hex.Encode(p.bytes[4 * w .. 4 * w + 4])
  {
    var words := EncodedWords(p.bytes);
    var groups := WordGroups(words);
    WordInGroup(words, w);
    EncodedWordsAt(p.bytes, w);
    assert RenderLines(p)[w / 4] == RenderLine(p.startAddress, w / 4, groups[w / 4]);
    RenderLineWord(p.startAddress, w / 4, groups[w / 4], w % 4);
  }

  /** Word `w` is word `w % 4` of group `w / 4`, and every word of that
      group keeps its eight digits. */
  lemma WordInGroup(words: seq<string>, w: nat)
    requires w < |words| && forall j :: 0 <= j < |words| ==> |words[j]| == 8
    ensures var groups := WordGroups(words);
      && w / 4 < |groups| && w % 4 < |groups[w / 4]| && groups[w / 4][w % 4] == words[w]
      && forall j :: 0 <= j < |groups[w / 4]| ==> |groups[w / 4][j]| == 8
  {
    var groups := WordGroups(words);
    var i, k := w / 4, w % 4;
    assert w == 4 * i + k;
    var end := if 4 * i + 4 <= |words| then 4 * i + 4 else |words|;
    assert groups[i] == words[4 * i .. end];
    forall j | 0 <= j < |groups[i]| ensures |groups[i][j]| == 8 {
      assert groups[i][j] == words[4 * i + j];
    }
  }
}
