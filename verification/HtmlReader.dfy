/** The io.Reader under the tokenizer. */
module HtmlReader {
  import opened Utf8

  /** A reader that hands out its input in pieces of any size, and may report the end together with the last piece. */
  class Source {
    const input: Bytes
    var pos: nat

    constructor (input: Bytes)
      ensures this.input == input && pos == 0
    {
      this.input := input;
      pos := 0;
    }

    /** readAtLeastOneByte(r, b[from:]). How much is read is up to the reader. */
    method ReadAtLeastOneByte(b: array<Byte>, from: nat) returns (n: nat, end: bool)
      requires pos <= |input| && from < b.Length
      modifies `pos, b
      ensures pos == old(pos) + n <= |input| && from + n <= b.Length
      ensures forall k :: 0 <= k < from ==> b[k] == old(b[k])
      ensures forall k :: from <= k < from + n ==> b[k] == input[old(pos) + k - from]
      ensures (n == 0 ==> end) && (end ==> pos == |input|)
    {
      var room, rest := b.Length - from, |input| - pos;
      var most := if room < rest then room else rest;
      if most > 0 {
        n :| 1 <= n <= most;
      } else {
        n := 0;
      }
      forall k | 0 <= k < n {
        b[from + k] := input[pos + k];
      }
      pos := pos + n;
      var early := *;
      end := pos == |input| && (n == 0 || early);
    }
  }
}
