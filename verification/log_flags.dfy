/**
 Flag printing of the log (print_flag_set in src/intercept_log.c): the names of the flags found in a
 table, in table order, and the bits no entry names.
 */
module LogFlags {
  import opened Bytes
  import opened LogNumbers
  import opened LogEscape

  datatype FlagDesc = FlagDesc(flag: bv64, name: string)

  // ----- bit sets -----

  function Or(a: bv64, b: bv64): bv64 {
    a | b
  }

  function Minus(a: bv64, b: bv64): bv64 {
    a & !b
  }

  predicate Meets(a: bv64, b: bv64) {
    a & b != 0
  }

  predicate Within(a: bv64, b: bv64) {
    a & !b == 0
  }

  predicate SingleBit(d: bv64) {
    d != 0 && d & (d - 1) == 0
  }

  // ----- what is printed -----

  /** What is left of `flags` after the first n entries. */
  ghost function Left(flags: bv64, table: seq<FlagDesc>, n: nat): bv64
    requires n <= |table|
  {
    if n == 0 then flags else Minus(Left(flags, table, n - 1), table[n - 1].flag)
  }

  /** Entry i is printed. */
  ghost predicate Named(flags: bv64, table: seq<FlagDesc>, i: nat)
    requires i < |table|
  {
    Meets(Left(flags, table, i), table[i].flag)
  }

  /** The union of the flags printed among the first n entries. */
  ghost function Union(flags: bv64, table: seq<FlagDesc>, n: nat): bv64
    requires n <= |table|
  {
    if n == 0 then 0
    else if Named(flags, table, n - 1) then Or(Union(flags, table, n - 1), table[n - 1].flag)
    else Union(flags, table, n - 1)
  }

  /** All bits the first n entries mention. */
  ghost function Cover(table: seq<FlagDesc>, n: nat): bv64
    requires n <= |table|
  {
    if n == 0 then 0 else Or(Cover(table, n - 1), table[n - 1].flag)
  }

  /** Entry i is a single bit, unless earlier entries mention all its bits. */
  ghost predicate CleanAt(table: seq<FlagDesc>, i: nat)
    requires i < |table|
  {
    SingleBit(table[i].flag) || Within(table[i].flag, Cover(table, i))
  }

  ghost predicate Clean(table: seq<FlagDesc>) {
    forall i :: 0 <= i < |table| ==> CleanAt(table, i)
  }

  /** The names and the residue together say exactly which flags were set. */
  ghost predicate Conserved(flags: bv64, table: seq<FlagDesc>) {
    Or(Union(flags, table, |table|), Left(flags, table, |table|)) == flags
  }

  // ----- bits -----

  lemma MinusTwice(f: bv64, c: bv64, d: bv64)
    ensures Minus(f, 0) == f && Minus(Minus(f, c), d) == Minus(f, Or(c, d))
  {
  }

  lemma StillHeld(f: bv64, u: bv64, c: bv64, d: bv64)
    requires Within(f, Or(u, Minus(f, c)))
    ensures Meets(Minus(f, c), d) ==> Within(f, Or(Or(u, d), Minus(f, Or(c, d))))
    ensures !Meets(Minus(f, c), d) ==> Within(f, Or(u, Minus(f, Or(c, d))))
  {
  }

  lemma OrHolds(u: bv64, d: bv64, e: bv64)
    ensures Within(d, Or(u, d)) && (Within(d, u) ==> Within(d, Or(u, e)))
  {
  }

  lemma OrWithin(u: bv64, d: bv64, f: bv64)
    requires Within(u, f) && Within(d, f)
    ensures Within(Or(u, d), f)
  {
  }

  lemma MeetsOutside(f: bv64, c: bv64, d: bv64)
    requires Meets(Minus(f, c), d)
    ensures !Within(d, c) && Meets(f, d)
  {
  }

  lemma SingleBitMeets(f: bv64, d: bv64)
    requires SingleBit(d) && Meets(f, d)
    ensures Within(d, f)
  {
  }

  lemma SameBits(f: bv64, u: bv64, c: bv64)
    requires Within(f, Or(u, Minus(f, c))) && Within(u, f)
    ensures Or(u, Minus(f, c)) == f
  {
  }

  lemma LowestBit(x: bv64) returns (b: bv64)
    requires x != 0
    ensures SingleBit(b) && b & x == b
  {
    b := x & (0 - x);
  }

  lemma SingleBitWithin(x: bv64) returns (b: bv64)
    requires x != 0
    ensures SingleBit(b) && b != 0 && Within(b, x)
  {
    b := LowestBit(x);
    assert b & !x == (b & x) & !x;
  }

  lemma FromDifference(x: bv64, c: bv64, b: bv64)
    requires Within(b, Minus(x, c)) && b != 0
    ensures Within(b, x) && Meets(Minus(b, c), x)
  {
  }

  lemma SomethingLeft(x: bv64, c: bv64)
    requires !Within(x, c)
    ensures Minus(x, c) != 0
  {
  }

  lemma FreeBit(x: bv64, c: bv64) returns (b: bv64)
    requires !Within(x, c)
    ensures SingleBit(b) && Within(b, x) && Meets(Minus(b, c), x)
  {
    hide SingleBit, Minus, Within, Meets;
    SomethingLeft(x, c);
    b := SingleBitWithin(Minus(x, c));
    FromDifference(x, c, b);
  }

  lemma OrIsNot(u: bv64, l: bv64, d: bv64, b: bv64)
    requires Within(d, u) && Or(u, l) == b
    ensures Within(d, b)
  {
  }

  lemma SameBit(d: bv64, b: bv64)
    requires Within(d, b) && Within(b, d)
    ensures d == b
  {
  }

  lemma SingleBitsApart(c: bv64, d: bv64)
    requires SingleBit(c) && SingleBit(d) && Meets(c, d)
    ensures c == d
  {
    hide SingleBit;
    SingleBitMeets(c, d);
    assert Meets(d, c);
    SingleBitMeets(d, c);
    SameBit(c, d);
  }

  lemma Unmasked(f: bv64, c: bv64, d: bv64)
    requires !Meets(c, d)
    ensures Meets(Minus(f, c), d) <==> Meets(f, d)
  {
  }

  lemma NotMeets(c: bv64, e: bv64, d: bv64)
    requires !Meets(c, d) && !Meets(e, d)
    ensures !Meets(Or(c, e), d)
  {
  }

  // ----- conservation -----

  /** The residue: the bits of flags that no entry mentions. */
  lemma {:induction false} LeftMeaning(flags: bv64, table: seq<FlagDesc>, n: nat)
    requires n <= |table|
    ensures Left(flags, table, n) == Minus(flags, Cover(table, n))
  {
    hide Minus, Or;
    if n > 0 {
      LeftMeaning(flags, table, n - 1);
      MinusTwice(flags, Cover(table, n - 1), table[n - 1].flag);
    } else {
      MinusTwice(flags, 0, 0);
    }
  }

  /** No bit is lost: every set bit is in a printed entry or in the residue. */
  lemma {:induction false} NothingLost(flags: bv64, table: seq<FlagDesc>, n: nat)
    requires n <= |table|
    ensures Within(flags, Or(Union(flags, table, n), Left(flags, table, n)))
  {
    if n > 0 {
      hide Minus, Or, Within, Meets, Left;
      LeftMeaning(flags, table, n);
      LeftMeaning(flags, table, n - 1);
      NothingLost(flags, table, n - 1);
      StillHeld(flags, Union(flags, table, n - 1), Cover(table, n - 1), table[n - 1].flag);
    }
  }

  lemma {:induction false} UnionHolds(flags: bv64, table: seq<FlagDesc>, i: nat, n: nat)
    requires i < n <= |table| && Named(flags, table, i)
    ensures Within(table[i].flag, Union(flags, table, n))
  {
    hide Or, Within, Named;
    OrHolds(Union(flags, table, n - 1), table[i].flag, table[n - 1].flag);
    if i < n - 1 {
      UnionHolds(flags, table, i, n - 1);
    }
  }

  lemma {:induction false} CleanUnion(flags: bv64, table: seq<FlagDesc>, n: nat)
    requires n <= |table| && Clean(table)
    ensures Within(Union(flags, table, n), flags)
  {
    if n > 0 {
      hide Minus, Or, Within, Meets, Left, Cover, SingleBit;
      CleanUnion(flags, table, n - 1);
      LeftMeaning(flags, table, n - 1);
      if Named(flags, table, n - 1) {
        assert CleanAt(table, n - 1);
        MeetsOutside(flags, Cover(table, n - 1), table[n - 1].flag);
        SingleBitMeets(flags, table[n - 1].flag);
        OrWithin(Union(flags, table, n - 1), table[n - 1].flag, flags);
      }
    }
  }

  lemma CleanIsConserved(flags: bv64, table: seq<FlagDesc>)
    requires Clean(table)
    ensures Conserved(flags, table)
  {
    hide Clean, Union, Left, Cover, Minus, Or, Within;
    NothingLost(flags, table, |table|);
    CleanUnion(flags, table, |table|);
    LeftMeaning(flags, table, |table|);
    SameBits(flags, Union(flags, table, |table|), Cover(table, |table|));
  }

  /** An entry of several bits, not all mentioned before, is also printed when one of them is set alone. */
  lemma NotConserved(table: seq<FlagDesc>, i: nat, b: bv64)
    requires i < |table| && Within(b, table[i].flag) && b != table[i].flag
    requires Meets(Minus(b, Cover(table, i)), table[i].flag)
    ensures Named(b, table, i) && !Conserved(b, table)
  {
    hide Union, Left, Cover, Minus, Or, Within, Meets;
    LeftMeaning(b, table, i);
    UnionHolds(b, table, i, |table|);
    if Conserved(b, table) {
      OrIsNot(Union(b, table, |table|), Left(b, table, |table|), table[i].flag, b);
      SameBit(table[i].flag, b);
    }
  }

  /** A table names flags faithfully, whatever flags are set, exactly when it is clean. */
  lemma ConservedIff(table: seq<FlagDesc>)
    ensures Clean(table) <==> forall flags :: Conserved(flags, table)
  {
    hide Conserved, Cover, SingleBit, Within, Meets, Minus;
    if Clean(table) {
      forall flags
        ensures Conserved(flags, table)
      {
        CleanIsConserved(flags, table);
      }
    } else {
      var i :| 0 <= i < |table| && !CleanAt(table, i);
      var b := FreeBit(table[i].flag, Cover(table, i));
      NotConserved(table, i, b);
    }
  }

  lemma {:induction false} CoverApart(table: seq<FlagDesc>, n: nat, d: bv64)
    requires n <= |table| && SingleBit(d)
    requires forall j :: 0 <= j < n ==> SingleBit(table[j].flag) && table[j].flag != d
    ensures !Meets(Cover(table, n), d)
  {
    if n > 0 {
      hide Or, Meets, SingleBit;
      CoverApart(table, n - 1, d);
      if Meets(table[n - 1].flag, d) {
        SingleBitsApart(table[n - 1].flag, d);
      }
      NotMeets(Cover(table, n - 1), table[n - 1].flag, d);
    }
  }

  /** In a table of distinct single bits a name is printed exactly when its flag is set. */
  lemma NamedIff(flags: bv64, table: seq<FlagDesc>, i: nat)
    requires i < |table|
    requires forall j :: 0 <= j < |table| ==> SingleBit(table[j].flag)
    requires forall j, k :: 0 <= j < k < |table| ==> table[j].flag != table[k].flag
    ensures Named(flags, table, i) <==> Meets(flags, table[i].flag)
  {
    hide SingleBit, Cover, Left, Meets, Minus;
    CoverApart(table, i, table[i].flag);
    LeftMeaning(flags, table, i);
    Unmasked(flags, Cover(table, i), table[i].flag);
  }

  /** The table of open flags, with their values on x86-64. */
  const OPEN_FLAGS := [
    FlagDesc(0x400, "O_APPEND"), FlagDesc(0x80000, "O_CLOEXEC"), FlagDesc(0x40, "O_CREAT"),
    FlagDesc(0x10000, "O_DIRECTORY"), FlagDesc(0x1000, "O_DSYNC"), FlagDesc(0x80, "O_EXCL"),
    FlagDesc(0x100, "O_NOCTTY"), FlagDesc(0x20000, "O_NOFOLLOW"), FlagDesc(0x800, "O_NONBLOCK"),
    FlagDesc(0x101000, "O_RSYNC"), FlagDesc(0x101000, "O_SYNC"), FlagDesc(0x200, "O_TRUNC")]

  lemma {:induction false} CoverMisses(table: seq<FlagDesc>, n: nat, d: bv64)
    requires n <= |table| && forall j :: 0 <= j < n ==> !Meets(table[j].flag, d)
    ensures !Meets(Cover(table, n), d)
  {
    if n > 0 {
      hide Or, Meets;
      CoverMisses(table, n - 1, d);
      NotMeets(Cover(table, n - 1), table[n - 1].flag, d);
    }
  }

  lemma Missed(b: bv64, c: bv64, d: bv64)
    requires !Meets(c, b) && b != 0 && Within(b, d)
    ensures Meets(Minus(b, c), d)
  {
  }

  const SYNC_BIT: bv64 := 0x100000

  /** O_RSYNC shares a bit with O_DSYNC before it, so the other bit alone is printed as O_RSYNC. */
  lemma SyncBitIsMisnamed()
    ensures OPEN_FLAGS[9].name == "O_RSYNC" && Named(SYNC_BIT, OPEN_FLAGS, 9)
    ensures !Conserved(SYNC_BIT, OPEN_FLAGS) && !Clean(OPEN_FLAGS)
  {
    assert forall j :: 0 <= j < 9 ==> !Meets(OPEN_FLAGS[j].flag, SYNC_BIT);
    assert Within(SYNC_BIT, OPEN_FLAGS[9].flag);
    hide Cover, Clean, Conserved, Meets, Within, Minus, Named;
    CoverMisses(OPEN_FLAGS, 9, SYNC_BIT);
    Missed(SYNC_BIT, Cover(OPEN_FLAGS, 9), OPEN_FLAGS[9].flag);
    NotConserved(OPEN_FLAGS, 9, SYNC_BIT);
    ConservedIff(OPEN_FLAGS);
  }

  // ----- the printer -----

  const SEPARATOR := " | "

  /** A list, ready for one more item. */
  function Spaced(list: string): string {
    if list == "" then "" else list + SEPARATOR
  }

  function Join(list: string, item: string): string {
    Spaced(list) + item
  }

  /** The list after the first n entries, `list` being there before. */
  ghost function Names(list: string, flags: bv64, table: seq<FlagDesc>, n: nat): string
    requires n <= |table|
  {
    if n == 0 then list
    else if Named(flags, table, n - 1) then Join(Names(list, flags, table, n - 1), table[n - 1].name)
    else Names(list, flags, table, n - 1)
  }

  function Value(flags: bv64): (n: nat)
    ensures n < TWO_64
  {
    flags as nat
  }

  ghost function Hex(n: nat): string {
    "0x" + Digits(n, 16, 1)
  }

  ghost function FlagText(list: string, flags: bv64, table: seq<FlagDesc>): string {
    var names := Names(list, flags, table, |table|);
    var residue := Left(flags, table, |table|);
    var all := if residue != 0 then Join(names, Hex(Value(residue))) else names;
    if all == "" then "0" else all
  }

  /** The names printed among the first n entries, one by one. */
  ghost function Listed(flags: bv64, table: seq<FlagDesc>, n: nat): seq<string>
    requires n <= |table|
  {
    if n == 0 then [] else
      Listed(flags, table, n - 1) + (if Named(flags, table, n - 1) then [table[n - 1].name] else [])
  }

  /** Items with " | " between them. */
  ghost function Barred(items: seq<string>): string {
    if |items| == 0 then "" else if |items| == 1 then items[0]
    else Barred(items[..|items| - 1]) + " | " + items[|items| - 1]
  }

  lemma {:induction false} BarredNonEmpty(items: seq<string>)
    requires forall i :: 0 <= i < |items| ==> items[i] != ""
    ensures Barred(items) == "" <==> items == []
  {
    if |items| > 1 {
      BarredNonEmpty(items[..|items| - 1]);
    }
  }

  lemma JoinIsBarred(items: seq<string>, item: string)
    requires forall i :: 0 <= i < |items| ==> items[i] != ""
    ensures Join(Barred(items), item) == Barred(items + [item])
  {
    BarredNonEmpty(items);
    assert (items + [item])[..|items|] == items;
  }

  lemma {:induction false} NamesAreBarred(flags: bv64, table: seq<FlagDesc>, n: nat)
    requires n <= |table| && forall i :: 0 <= i < |table| ==> table[i].name != ""
    ensures Names("", flags, table, n) == Barred(Listed(flags, table, n))
    ensures forall i :: 0 <= i < |Listed(flags, table, n)| ==> Listed(flags, table, n)[i] != ""
  {
    hide Named, Join, Barred;
    if n > 0 {
      NamesAreBarred(flags, table, n - 1);
      JoinIsBarred(Listed(flags, table, n - 1), table[n - 1].name);
      assert Listed(flags, table, n - 1) + [] == Listed(flags, table, n - 1);
    } else {
      assert Barred([]) == "" by { BarredNonEmpty([]); }
    }
  }

  /**
   In a fresh list: the names and the residue in hexadecimal with bars between them, and "0" only if there
   is neither.
   */
  lemma FlagTextIsBarred(flags: bv64, table: seq<FlagDesc>)
    requires forall i :: 0 <= i < |table| ==> table[i].name != ""
    ensures var left := Left(flags, table, |table|);
      var items := Listed(flags, table, |table|) + (if left == 0 then [] else [Hex(Value(left))]);
      FlagText("", flags, table) == if items == [] then "0" else Barred(items)
  {
    hide Named, Join, Barred, Listed, Names, Left, Value, Digits;
    var names, left := Listed(flags, table, |table|), Left(flags, table, |table|);
    NamesAreBarred(flags, table, |table|);
    BarredNonEmpty(names);
    if left != 0 {
      JoinIsBarred(names, Hex(Value(left)));
      BarredNonEmpty(names + [Hex(Value(left))]);
    } else {
      assert names + [] == names;
    }
  }

  lemma {:induction false} NothingMore(list: string, flags: bv64, table: seq<FlagDesc>, m: nat, n: nat)
    requires m <= n <= |table| && Left(flags, table, m) == 0
    ensures Left(flags, table, n) == 0 && Names(list, flags, table, n) == Names(list, flags, table, m)
  {
    if m < n {
      NothingMore(list, flags, table, m, n - 1);
    }
  }

  /** Printing at the end of a list extends the list. */
  lemma Extends(before: seq<char>, after: seq<char>, start: nat, at: nat, text: string)
    requires start <= at <= |before| && Printed(before, after, at, text)
    ensures |after| == |before| && at + |text| <= |after|
    ensures after[start..at + |text|] == before[start..at] + text
    ensures after[..start] == before[..start]
  {
    assert after[start..at] == after[..at][start..] == before[..at][start..] == before[start..at];
    assert after[..start] == after[..at][..start] == before[..at][..start];
    assert after[start..at + |text|] == after[start..at] + after[at..at + |text|];
  }

  method PrintSeparator(dst: array<char>, start: nat, at: nat) returns (end: nat)
    requires start <= at <= dst.Length && start + |Spaced(dst[start..at])| < dst.Length
    modifies dst
    ensures end == start + |Spaced(old(dst[start..at]))|
    ensures dst[start..end] == Spaced(old(dst[start..at]))
    ensures dst[..start] == old(dst[..start])
  {
    hide Printed;
    end := at;
    if end != start {
      ghost var before := dst[..];
      end := PrintCstr(dst, end, SEPARATOR);
      Extends(before, dst[..], start, at, SEPARATOR);
    }
  }

  /** print_flag: appends an item to the list that starts at `start`. */
  method PrintFlag(dst: array<char>, start: nat, at: nat, item: string) returns (end: nat)
    requires start <= at <= dst.Length && start + |Join(dst[start..at], item)| < dst.Length
    modifies dst
    ensures end == start + |Join(old(dst[start..at]), item)|
    ensures dst[start..end] == Join(old(dst[start..at]), item)
    ensures dst[..start] == old(dst[..start])
  {
    hide Printed, Spaced;
    var middle := PrintSeparator(dst, start, at);
    ghost var before := dst[..];
    end := PrintCstr(dst, middle, item);
    Extends(before, dst[..], start, middle, item);
  }

  /** The loop of print_flag_set. */
  method PrintNames(dst: array<char>, start: nat, at: nat, flags: bv64, table: seq<FlagDesc>)
    returns (end: nat, rest: bv64)
    requires start <= at < dst.Length
    requires forall n :: 0 <= n <= |table| ==> start + |Names(dst[start..at], flags, table, n)| < dst.Length
    modifies dst
    ensures start <= end < dst.Length
    ensures dst[start..end] == Names(old(dst[start..at]), flags, table, |table|)
    ensures dst[..start] == old(dst[..start])
    ensures rest == Left(flags, table, |table|)
  {
    hide Minus, Meets, Spaced;
    ghost var list := dst[start..at];
    var i := 0;
    rest := flags;
    end := at;
    while rest != 0 && i < |table|
      invariant 0 <= i <= |table| && start <= end < dst.Length
      invariant rest == Left(flags, table, i)
      invariant dst[start..end] == Names(list, flags, table, i)
      invariant dst[..start] == old(dst[..start])
      decreases |table| - i
    {
      assert start + |Names(list, flags, table, i + 1)| < dst.Length;
      if Meets(rest, table[i].flag) {
        hide Join;
        end := PrintFlag(dst, start, end, table[i].name);
        rest := Minus(rest, table[i].flag);
      } else {
        MinusOfApart(rest, table[i].flag);
      }
      i := i + 1;
    }
    if rest == 0 {
      NothingMore(list, flags, table, i, |table|);
    }
  }

  /** print_flag_set: the list between buffer_start and c grows by the names found and the residue. */
  method PrintFlagSet(dst: array<char>, start: nat, at: nat, flags: bv64, table: seq<FlagDesc>) returns (end: nat)
    requires start <= at < dst.Length
    requires start + |FlagText(dst[start..at], flags, table)| < dst.Length
    requires forall n :: 0 <= n <= |table| ==> start + |Names(dst[start..at], flags, table, n)| < dst.Length
    modifies dst
    ensures start <= end <= dst.Length
    ensures dst[start..end] == FlagText(old(dst[start..at]), flags, table)
    ensures dst[..start] == old(dst[..start])
  {
    hide Names, Left, Join, Value, Hex;
    var rest: bv64;
    end, rest := PrintNames(dst, start, at, flags, table);
    if rest != 0 {
      end := PrintHexItem(dst, start, end, Value(rest));
    }
    if end == start {
      end := PrintCstr(dst, end, "0");
      assert dst[start..end] == "0";
    }
  }

  lemma MinusOfApart(a: bv64, b: bv64)
    requires !Meets(a, b)
    ensures Minus(a, b) == a
  {
  }

  /** The residue as a hexadecimal item. */
  method PrintHexItem(dst: array<char>, start: nat, at: nat, n: nat) returns (end: nat)
    requires n < TWO_64
    requires start <= at <= dst.Length && start + |Join(dst[start..at], Hex(n))| <= dst.Length
    modifies dst
    ensures start < end <= dst.Length
    ensures dst[start..end] == Join(old(dst[start..at]), Hex(n))
    ensures dst[..start] == old(dst[..start])
  {
    hide Printed, Spaced, Digits, Fits;
    var middle := PrintSeparator(dst, start, at);
    ghost var before := dst[..];
    dst[middle] := '0';
    dst[middle + 1] := 'x';
    ghost var prefixed := dst[..];
    assert prefixed[start..middle + 2] == before[start..middle] + "0x" && prefixed[..start] == before[..start];
    FitsIff(16);
    end := PrintNumber(dst, middle + 2, n, 16, 1);
    Extends(prefixed, dst[..], start, middle + 2, Digits(n, 16, 1));
    assert before[start..middle] + "0x" + Digits(n, 16, 1) == before[start..middle] + Hex(n);
  }
}
