/**
 Where the trampoline table goes (allocate_trampoline_table in src/intercept_desc.c). The lines of
 /proc/self/maps are the input, in address order; an abort is `ok == false`.
 */
module Placement {
  import opened Bytes
  import opened Encoding

  const PAGE := 0x1000
  const TABLE_SIZE := 64 * 0x1000

  /** A mapping [start, end). */
  datatype Mapping = Mapping(start: int, end: int)

  ghost predicate SortedMaps(maps: seq<Mapping>) {
    && (forall i :: 0 <= i < |maps| ==> maps[i].start < maps[i].end)
    && (forall i, j :: 0 <= i < j < |maps| ==> maps[i].end <= maps[j].start)
  }

  /** Where the search starts: the lowest page in reach of the end of the text, but no lower than minAddress. */
  function InitialGuess(textEnd: int, minAddress: int): int {
    var guess := if textEnd < INT32_MAX then 0 else (textEnd - INT32_MAX) / PAGE * PAGE + PAGE;
    if guess < minAddress then minAddress else guess
  }

  ghost predicate Overlaps(m: Mapping, guess: int) {
    m.start < guess + TABLE_SIZE && guess < m.end
  }

  /** The bound the source checks, only after it has moved its guess. */
  predicate TooFar(textStart: int, guess: int) {
    guess + TABLE_SIZE >= textStart + INT32_MAX
  }

  ghost predicate Taken(maps: seq<Mapping>, guess: int) {
    exists i :: 0 <= i < |maps| && Overlaps(maps[i], guess)
  }

  /** Every jump from a 5-byte slot of the text to a trampoline slot of the table has a 32-bit displacement. */
  ghost predicate InReach(textStart: int, textEnd: int, guess: int) {
    forall from, to :: textStart <= from <= textEnd - 4 && guess <= to <= guess + TABLE_SIZE - TRAMPOLINE_SIZE ==>
      JumpFits(from, to)
  }

  /** The byte at x is mapped by m. */
  predicate Contains(m: Mapping, x: int) {
    m.start <= x < m.end
  }

  /** No byte of the table at this place is mapped. */
  ghost predicate Free(maps: seq<Mapping>, guess: int) {
    forall x, i :: guess <= x < guess + TABLE_SIZE && 0 <= i < |maps| ==> !Contains(maps[i], x)
  }

  lemma TakenIff(maps: seq<Mapping>, guess: int)
    requires SortedMaps(maps)
    ensures Taken(maps, guess) <==> !Free(maps, guess)
  {
    if Taken(maps, guess) {
      var i :| 0 <= i < |maps| && Overlaps(maps[i], guess);
      var x := if guess <= maps[i].start then maps[i].start else guess;
      assert guess <= x < guess + TABLE_SIZE && Contains(maps[i], x);
    }
  }

  /** A text with room for a jump, of less than 4 GB, and a minAddress that is an address. */
  predicate OrdinaryText(textStart: int, textEnd: int, minAddress: int) {
    0 <= minAddress && textStart + 4 <= textEnd && textEnd - textStart <= 2 * INT32_MAX - TABLE_SIZE
  }

  /** The first guess passes over the pages out of reach, and over one more if that page is where reach begins. */
  lemma BelowFirstGuess(textStart: int, textEnd: int, minAddress: int, g: int)
    requires OrdinaryText(textStart, textEnd, minAddress)
    requires g % PAGE == 0 && minAddress <= g < InitialGuess(textEnd, minAddress)
    ensures InReach(textStart, textEnd, g) <==> g == textEnd - INT32_MAX
  {
    assert g <= (textEnd - INT32_MAX) / PAGE * PAGE <= textEnd - INT32_MAX;
    if InReach(textStart, textEnd, g) {
      assert JumpFits(textEnd - 4, g);
    }
  }

  /** A page that a jump from anywhere in the text reaches; the one page the search passes over is left out. */
  ghost predicate Considered(textStart: int, textEnd: int, minAddress: int, g: int) {
    && minAddress <= g && g % PAGE == 0 && g != textEnd - INT32_MAX
    && InReach(textStart, textEnd, g)
  }

  /** No such page below this bound is free. */
  ghost predicate NoneBelow(maps: seq<Mapping>, textStart: int, textEnd: int, minAddress: int, bound: int) {
    forall g :: Considered(textStart, textEnd, minAddress, g) && g < bound ==> !Free(maps, g)
  }

  lemma PagesBelow(maps: seq<Mapping>, textStart: int, textEnd: int, minAddress: int, bound: int)
    requires SortedMaps(maps) && forall g :: InitialGuess(textEnd, minAddress) <= g < bound ==> Taken(maps, g)
    ensures OrdinaryText(textStart, textEnd, minAddress) ==> NoneBelow(maps, textStart, textEnd, minAddress, bound)
  {
    hide InReach, Free, InitialGuess;
    if OrdinaryText(textStart, textEnd, minAddress) {
      forall g | Considered(textStart, textEnd, minAddress, g) && g < bound
        ensures !Free(maps, g)
      {
        if g < InitialGuess(textEnd, minAddress) {
          BelowFirstGuess(textStart, textEnd, minAddress, g);
        }
        TakenIff(maps, g);
      }
    }
  }

  /**
   The search loop. It finds the lowest free place from its first guess on, and aborts only if every
   place that is not too far is taken. In terms of pages and bytes: the place is free and at or above
   minAddress, and no lower page in reach is free, but for the one passed over.
   */
  method FindPlace(maps: seq<Mapping>, textStart: int, textEnd: int, minAddress: int) returns (ok: bool, guess: int)
    requires SortedMaps(maps)
    ensures ok ==> InitialGuess(textEnd, minAddress) <= guess
    ensures ok ==> !Taken(maps, guess)
    ensures ok ==> forall g :: InitialGuess(textEnd, minAddress) <= g < guess ==> Taken(maps, g)
    ensures ok ==> guess == InitialGuess(textEnd, minAddress) || guess + TABLE_SIZE < textStart + INT32_MAX
    ensures ok ==> guess == InitialGuess(textEnd, minAddress) || exists i :: 0 <= i < |maps| && guess == maps[i].end
    ensures !ok ==> forall g :: InitialGuess(textEnd, minAddress) <= g && !TooFar(textStart, g) ==> Taken(maps, g)
    ensures ok ==> minAddress <= guess && Free(maps, guess)
    ensures OrdinaryText(textStart, textEnd, minAddress) ==>
      NoneBelow(maps, textStart, textEnd, minAddress, if ok then guess else textStart + INT32_MAX - TABLE_SIZE)
  {
    if textEnd < INT32_MAX {
      guess := 0;
    } else {
      guess := textEnd - INT32_MAX;
      guess := guess / PAGE * PAGE + PAGE;
    }
    if guess < minAddress {
      guess := minAddress;
    }
    var i := 0;
    while i < |maps|
      invariant 0 <= i <= |maps|
      invariant InitialGuess(textEnd, minAddress) <= guess
      invariant guess == InitialGuess(textEnd, minAddress)
        || (!TooFar(textStart, guess) && exists j :: 0 <= j < i && guess == maps[j].end)
      invariant forall j :: 0 <= j < i ==> maps[j].end <= guess
      invariant forall g :: InitialGuess(textEnd, minAddress) <= g < guess ==> Taken(maps, g)
    {
      if maps[i].end < guess {
        i := i + 1;
        continue;
      }
      if maps[i].start >= guess + TABLE_SIZE {
        break;
      }
      assert forall g :: guess <= g < maps[i].end ==> Overlaps(maps[i], g);
      guess := maps[i].end;
      if guess + TABLE_SIZE >= textStart + INT32_MAX {
        PagesBelow(maps, textStart, textEnd, minAddress, textStart + INT32_MAX - TABLE_SIZE);
        return false, guess;
      }
      i := i + 1;
    }
    TakenIff(maps, guess);
    PagesBelow(maps, textStart, textEnd, minAddress, guess);
    return true, guess;
  }

  /**
   The search never checks its first guess against the upper bound. It does not need to: with the text
   above the lowest mappable address, all jumps are in reach for every text below this bound, just
   under 4 GB.
   */
  lemma TableInReach(textStart: int, textEnd: int, minAddress: int, guess: int)
    requires 0 <= minAddress <= textStart <= textEnd
    requires textEnd - textStart <= 2 * INT32_MAX - TABLE_SIZE - PAGE
    requires InitialGuess(textEnd, minAddress) <= guess
    requires guess == InitialGuess(textEnd, minAddress) || !TooFar(textStart, guess)
    ensures InReach(textStart, textEnd, guess)
  {
    assert guess >= textEnd - INT32_MAX;
    assert guess + TABLE_SIZE <= textStart + INT32_MAX + 5;
  }

  /** Page-aligned maps give a page-aligned table. */
  lemma TableIsPageAligned(maps: seq<Mapping>, textEnd: int, minAddress: int, guess: int)
    requires minAddress % PAGE == 0 && forall i :: 0 <= i < |maps| ==> maps[i].end % PAGE == 0
    requires guess == InitialGuess(textEnd, minAddress) || exists i :: 0 <= i < |maps| && guess == maps[i].end
    ensures guess % PAGE == 0
  {
  }
}
