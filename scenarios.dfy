/**
 * Concrete listings and what the filter-and-sort prints for them, plus the
 * general rule behind the duplicate case.
 */
module Scenarios {
  import opened ByteOrder
  import opened FileTypes
  import opened Listing

  /** An ASCII filename as the raw bytes the server sends. */
  function Ascii(s: string): Name
    requires forall i :: 0 <= i < |s| ==> s[i] as int < 128
  {
    seq(|s|, i requires 0 <= i < |s| => s[i] as bv8)
  }

  /** Two entries under one name, neither a directory: both copies are printed. */
  lemma DuplicatesKept(n: Name, t1: FileType, t2: FileType)
    requires t1 != Directory && t2 != Directory && !IsDotName(n)
    ensures Filenames([Entry(n, Code(t1)), Entry(n, Code(t2))]) == [n, n]
  {
    var listing := [Entry(n, Code(t1)), Entry(n, Code(t2))];
    assert listing[1..][1..] == [];
    assert Select(listing, Retained) == [n, n];
    LessEqReflexive(n);
    SortOfSorted([n, n]);
  }

  /** Directories and the pseudo-entries contribute no name. */
  lemma {:induction false} SelectSkipsDirectories(listing: seq<Entry>)
    requires forall i :: 0 <= i < |listing| ==> listing[i].typeCode == Code(Directory)
    ensures Select(listing, Retained) == []
    decreases |listing|
  {
    if listing != [] {
      SelectSkipsDirectories(listing[1..]);
    }
  }

  /**
   * Files are kept, a subdirectory and the pseudo-entries dropped, and the
   * files printed in byte order whichever way the server listed them.
   */
  lemma FilesAmongDirectories(a: Name, b: Name, sub: Name)
    requires !IsDotName(a) && !IsDotName(b) && LessEq(a, b)
    ensures Filenames([
      Entry(b, Code(Regular)), Entry(sub, Code(Directory)),
      Entry(Dot, Code(Directory)), Entry(DotDot, Code(Directory)),
      Entry(a, Code(Regular))]) == [a, b]
  {
    var fb, fa := Entry(b, Code(Regular)), Entry(a, Code(Regular));
    var dirs := [Entry(sub, Code(Directory)), Entry(Dot, Code(Directory)), Entry(DotDot, Code(Directory))];
    SelectSkipsDirectories(dirs);
    SelectOne(fb, Retained);
    SelectOne(fa, Retained);
    SelectAppend([fb], dirs, Retained);
    SelectAppend([fb] + dirs, [fa], Retained);
    FiveInARow(fb, dirs, fa);
    TwoInARow(b, a);
    SortTwo(b, a);
  }

  lemma FiveInARow<T>(x: T, mid: seq<T>, y: T)
    requires |mid| == 3
    ensures [x] + mid + [y] == [x, mid[0], mid[1], mid[2], y]
  {
  }

  lemma TwoInARow<T>(x: T, y: T)
    ensures [x] + [] + [y] == [x, y]
  {
  }

  /** Sorting two names that arrive out of order. */
  lemma SortTwo(x: Name, y: Name)
    requires LessEq(y, x)
    ensures Sort([x, y]) == [y, x]
  {
    SortedPair(y, x);
    SwapTwo([x, y]);
    SortUnique([x, y], [y, x]);
  }

  lemma SortedPair(x: Name, y: Name)
    requires LessEq(x, y)
    ensures Sorted([x, y])
  {
  }

  lemma SortedTriple(x: Name, y: Name, z: Name)
    requires LessEq(x, y) && LessEq(y, z)
    ensures Sorted([x, y, z])
  {
    LessEqTransitive(x, y, z);
  }

  /** Swapping the first two of two names keeps the same names. */
  lemma SwapTwo(s: seq<Name>)
    requires |s| == 2
    ensures multiset([s[1], s[0]]) == multiset(s)
  {
    assert s == [s[0], s[1]];
  }

  /** Swapping the first two of three names keeps the same names. */
  lemma SwapThree(s: seq<Name>)
    requires |s| == 3
    ensures multiset([s[1], s[0], s[2]]) == multiset(s)
  {
    assert s == [s[0], s[1], s[2]];
  }

  /** Three names in a row, none `.` or `..`, all pass the filter. */
  lemma {:induction false} SelectThree(listing: seq<Entry>)
    requires |listing| == 3
    requires forall i :: 0 <= i < 3 ==> Retained(listing[i])
    ensures Select(listing, Retained) == [listing[0].filename, listing[1].filename, listing[2].filename]
  {
    assert listing[1..][1..][1..] == [];
    assert Select(listing[1..][1..], Retained) == [listing[2].filename];
  }

  /** Sorting three names that need their first two swapped. */
  lemma SortThree(s: seq<Name>)
    requires |s| == 3 && LessEq(s[1], s[0]) && LessEq(s[0], s[2])
    ensures Sort(s) == [s[1], s[0], s[2]]
  {
    SortedTriple(s[1], s[0], s[2]);
    SwapThree(s);
    SortUnique(s, [s[1], s[0], s[2]]);
  }

  /** Every non-directory kind is kept, whichever it is, and the names are sorted. */
  lemma NonDirectoryKindsKept(link: Name, dev: Name, weird: Name)
    requires !IsDotName(link) && !IsDotName(dev) && !IsDotName(weird)
    requires LessEq(dev, link) && LessEq(link, weird)
    ensures Filenames([
      Entry(link, Code(Symlink)), Entry(dev, Code(Special)),
      Entry(weird, Code(Unknown))]) == [dev, link, weird]
  {
    var listing := [Entry(link, Code(Symlink)), Entry(dev, Code(Special)), Entry(weird, Code(Unknown))];
    SelectThree(listing);
    SortThree([link, dev, weird]);
  }

  /** Two names longer than `..` whose first octets are in order. */
  lemma OrderedAsciiNames(x: Name, y: Name)
    requires |x| > 2 && |y| > 2 && x[0] < y[0]
    ensures !IsDotName(x) && !IsDotName(y) && LessEq(x, y)
  {
  }

  /** The listing of the example directory: two files, a subdirectory, `.` and `..`. */
  lemma ExampleDirectory()
    ensures Filenames([
      Entry(Ascii("b.txt"), Code(Regular)), Entry(Ascii("sub"), Code(Directory)),
      Entry(Dot, Code(Directory)), Entry(DotDot, Code(Directory)),
      Entry(Ascii("a.txt"), Code(Regular))]) == [Ascii("a.txt"), Ascii("b.txt")]
  {
    OrderedAsciiNames(Ascii("a.txt"), Ascii("b.txt"));
    FilesAmongDirectories(Ascii("a.txt"), Ascii("b.txt"), Ascii("sub"));
  }

  /** A symlink, a device and an entry of unknown kind, listed in no particular order. */
  lemma ExampleNonDirectories()
    ensures Filenames([
      Entry(Ascii("link"), Code(Symlink)), Entry(Ascii("dev0"), Code(Special)),
      Entry(Ascii("weird"), Code(Unknown))]) == [Ascii("dev0"), Ascii("link"), Ascii("weird")]
  {
    OrderedAsciiNames(Ascii("dev0"), Ascii("link"));
    OrderedAsciiNames(Ascii("link"), Ascii("weird"));
    NonDirectoryKindsKept(Ascii("link"), Ascii("dev0"), Ascii("weird"));
  }
}
