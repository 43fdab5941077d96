/** getNumKmersInUFX: the number of records in a UFX text file of fixed-width lines, or a negative
    error code. The file reads are abstracted into the values the source obtains from them. */
module Ufx {
  import opened KmerTypes

  const COULD_NOT_OPEN: int := -1
  const SHORT_FIRST_LINE: int := -2
  const UNEXPECTED_LINE_LENGTH: int := -3
  const UNEXPECTED_FORMAT: int := -4
  const COULD_NOT_STAT: int := -5
  const SIZE_NOT_MULTIPLE: int := -6

  /** The bytes ' ', '\t' and '\0'. */
  const SPACE: Byte := 32
  const TAB: Byte := 9
  const NUL: Byte := 0

  /** The byte after the k-mer on a UFX line separates it from the extensions. */
  predicate IsSeparator(c: Byte)
  {
    c == SPACE || c == TAB
  }

  /** The count check, in the source's order: `fileOpened` says whether fopen succeeded, `firstLine`
      holds the first LINE_SIZE bytes (None when fewer could be read), `totalSize` is the size fstat
      reports (None when fstat fails). A non-negative result is a count of whole lines. */
  function NumKmersInUfx(fileOpened: bool, firstLine: Option<seq<Byte>>, totalSize: Option<nat>): (r: int)
    requires firstLine.Some? ==> |firstLine.value| == LINE_SIZE
    ensures r >= 0 <==> fileOpened && firstLine.Some? && IsSeparator(firstLine.value[KMER_LENGTH])
                        && totalSize.Some? && totalSize.value % LINE_SIZE == 0
    ensures r >= 0 ==> r * LINE_SIZE == totalSize.value
    ensures !fileOpened ==> r == COULD_NOT_OPEN
    ensures fileOpened && firstLine.None? ==> r == SHORT_FIRST_LINE
    ensures fileOpened && firstLine.Some? && IsSeparator(firstLine.value[KMER_LENGTH]) && totalSize.None?
            ==> r == COULD_NOT_STAT
    ensures r < 0 ==> r in {COULD_NOT_OPEN, SHORT_FIRST_LINE, UNEXPECTED_FORMAT, COULD_NOT_STAT, SIZE_NOT_MULTIPLE}
  {
    if !fileOpened then COULD_NOT_OPEN
    else if firstLine.None? then SHORT_FIRST_LINE
    else
      // The buffer has room for a terminator, written before the read.
      var buffer := firstLine.value + [NUL];
      if buffer[LINE_SIZE] != NUL then UNEXPECTED_LINE_LENGTH
      else if buffer[KMER_LENGTH] != SPACE && buffer[KMER_LENGTH] != TAB then UNEXPECTED_FORMAT
      else if totalSize.None? then COULD_NOT_STAT
      else if totalSize.value % LINE_SIZE != 0 then SIZE_NOT_MULTIPLE
      else totalSize.value / LINE_SIZE
  }

  /** A file of `n` lines whose first line is well formed is counted as `n` records. */
  lemma CountsWholeLines(firstLine: seq<Byte>, n: nat)
    requires |firstLine| == LINE_SIZE && IsSeparator(firstLine[KMER_LENGTH])
    ensures NumKmersInUfx(true, Some(firstLine), Some(n * LINE_SIZE)) == n
  {
    var r := NumKmersInUfx(true, Some(firstLine), Some(n * LINE_SIZE));
    assert r * LINE_SIZE == n * LINE_SIZE;
  }

  /** A size that is not a whole number of lines is reported as such, never as a count. */
  lemma PartialLineRejected(firstLine: seq<Byte>, size: nat)
    requires |firstLine| == LINE_SIZE && IsSeparator(firstLine[KMER_LENGTH])
    requires size % LINE_SIZE != 0
    ensures NumKmersInUfx(true, Some(firstLine), Some(size)) == SIZE_NOT_MULTIPLE
  {
  }

  /** The separator is checked before the size is asked for: a bad first line is reported as a
      format error whatever the size. */
  lemma FormatCheckedBeforeSize(firstLine: seq<Byte>, size: Option<nat>)
    requires |firstLine| == LINE_SIZE && !IsSeparator(firstLine[KMER_LENGTH])
    ensures NumKmersInUfx(true, Some(firstLine), size) == UNEXPECTED_FORMAT
  {
  }
}
