/**
 * The expression that turns a directory listing into the printed list of
 * filenames: keep the entries that are not directories and not named `.` or
 * `..`, take their filenames, and sort them.
 */
module Listing {
  import opened ByteOrder
  import opened FileTypes
  import opened SeqShapes

  /**
   * One element of what `readdir` returns: the raw filename and the integer
   * held in `attrs.type`. The code is kept as an integer, as the library hands
   * it over; a code outside 1..5 is not a directory and so is retained.
   */
  datatype Entry = Entry(filename: Name, typeCode: int)

  /** The pseudo-entries for the directory itself and its parent, as bytes. */
  const Dot: Name := [46]
  const DotDot: Name := [46, 46]

  predicate IsDotName(n: Name) {
    n == Dot || n == DotDot
  }

  /** The filter condition of the generator: not a directory, not `.` or `..`. */
  predicate Retained(e: Entry) {
    e.typeCode != Code(Directory) && !IsDotName(e.filename)
  }

  /** The generator: the filenames of the entries `keep` accepts, in listing order. */
  function Select(entries: seq<Entry>, keep: Entry -> bool): (names: seq<Name>)
    ensures |names| <= |entries|
  {
    if entries == [] then
      []
    else
      (if keep(entries[0]) then [entries[0].filename] else []) + Select(entries[1..], keep)
  }

  /** A name is generated exactly when some accepted entry carries it. */
  lemma {:induction false} SelectMembers(entries: seq<Entry>, keep: Entry -> bool)
    ensures forall n :: n in Select(entries, keep) <==>
      exists i :: 0 <= i < |entries| && keep(entries[i]) && entries[i].filename == n
    decreases |entries|
  {
    if entries != [] {
      SelectMembers(entries[1..], keep);
      assert forall i :: 1 <= i < |entries| ==> entries[1..][i - 1] == entries[i];
    }
  }

  /** A single entry yields its filename when accepted and nothing otherwise. */
  lemma SelectOne(e: Entry, keep: Entry -> bool)
    ensures Select([e], keep) == if keep(e) then [e.filename] else []
  {
    assert [e][1..] == [];
  }

  /** The generator works entry by entry: a split listing gives the concatenated names. */
  lemma {:induction false} SelectAppend(a: seq<Entry>, b: seq<Entry>, keep: Entry -> bool)
    ensures Select(a + b, keep) == Select(a, keep) + Select(b, keep)
    decreases |a|
  {
    if a == [] {
      assert a + b == b;
    } else {
      assert (a + b)[0] == a[0] && (a + b)[1..] == a[1..] + b;
      SelectAppend(a[1..], b, keep);
      var head := if keep(a[0]) then [a[0].filename] else [];
      assert Select(a + b, keep) == head + (Select(a[1..], keep) + Select(b, keep));
      assert Select(a, keep) == head + Select(a[1..], keep);
    }
  }

  /** The names of a listing split around position `k`. */
  lemma SelectSplit(t: seq<Entry>, k: nat, keep: Entry -> bool)
    requires k < |t|
    ensures Select(t, keep) == Select(t[..k], keep) + Select([t[k]], keep) + Select(t[k + 1..], keep)
  {
    SplitAt(t, k);
    SelectAppend(t[..k] + [t[k]], t[k + 1..], keep);
    SelectAppend(t[..k], [t[k]], keep);
  }

  /** Taking the entry at `k` out of a listing removes its names and nothing else. */
  lemma SelectAround(t: seq<Entry>, k: nat, keep: Entry -> bool)
    requires k < |t|
    ensures multiset(Select(t, keep)) ==
      multiset(Select(t[..k] + t[k + 1..], keep)) + multiset(Select([t[k]], keep))
  {
    SelectSplit(t, k, keep);
    SelectAppend(t[..k], t[k + 1..], keep);
    MultisetMiddle(Select(t[..k], keep), Select([t[k]], keep), Select(t[k + 1..], keep));
  }

  /** Two listings that are rearrangements of each other still are once a common entry is taken out of each. */
  lemma RemoveCommon(s: seq<Entry>, t: seq<Entry>, k: nat)
    requires multiset(s) == multiset(t) && s != [] && k < |t| && t[k] == s[0]
    ensures multiset(s[1..]) == multiset(t[..k] + t[k + 1..])
  {
    assert t == t[..k] + [t[k]] + t[k + 1..];
    assert s == [s[0]] + s[1..];
    assert multiset(s[1..]) == multiset(s) - multiset{s[0]};
    assert multiset(t[..k] + t[k + 1..]) == multiset(t) - multiset{t[k]};
  }

  /** Listings holding the same entries in another order give the same names, counted with multiplicity. */
  lemma {:induction false} SelectPermutation(s: seq<Entry>, t: seq<Entry>, keep: Entry -> bool)
    requires multiset(s) == multiset(t)
    ensures multiset(Select(s, keep)) == multiset(Select(t, keep))
    decreases |s|
  {
    assert |s| == |multiset(s)| == |t|;
    if s != [] {
      assert s[0] in multiset(t);
      var k :| 0 <= k < |t| && t[k] == s[0];
      RemoveCommon(s, t, k);
      SelectPermutation(s[1..], t[..k] + t[k + 1..], keep);
      SelectAround(t, k, keep);
      assert s == [s[0]] + s[1..];
      SelectAppend([s[0]], s[1..], keep);
    }
  }

  /** The printed result: `sorted(name.filename for name in listing if ...)`. */
  function Filenames(listing: seq<Entry>): (r: seq<Name>)
    ensures Sorted(r)
    ensures multiset(r) == multiset(Select(listing, Retained))
    ensures |r| <= |listing|
    ensures Dot !in r && DotDot !in r
  {
    var names := Select(listing, Retained);
    var r := Sort(names);
    SelectMembers(listing, Retained);
    SameMembers(r, names);
    r
  }

  /**
   * A name is printed exactly when some entry that is not a directory and not
   * `.` or `..` carries it.
   */
  lemma FilenamesMembers(listing: seq<Entry>)
    ensures forall n :: n in Filenames(listing) <==>
      exists i :: 0 <= i < |listing| && Retained(listing[i]) && listing[i].filename == n
  {
    SelectMembers(listing, Retained);
    SameMembers(Filenames(listing), Select(listing, Retained));
  }

  /** An entry the filter drops (a directory, `.` or `..`) changes nothing, wherever it stands. */
  lemma DroppedEntryIgnored(a: seq<Entry>, e: Entry, b: seq<Entry>)
    requires !Retained(e)
    ensures Filenames(a + [e] + b) == Filenames(a + b)
  {
    SelectAppend(a, [e], Retained);
    SelectAppend(a + [e], b, Retained);
    SelectAppend(a, b, Retained);
    assert Select([e], Retained) == [];
    SortIgnoresOrder(Select(a + [e] + b, Retained), Select(a + b, Retained));
  }

  /** An entry the filter keeps adds exactly one copy of its filename, even when that name is already there. */
  lemma KeptEntryCounted(a: seq<Entry>, e: Entry, b: seq<Entry>)
    requires Retained(e)
    ensures multiset(Filenames(a + [e] + b)) == multiset(Filenames(a + b)) + multiset{e.filename}
    ensures |Filenames(a + [e] + b)| == |Filenames(a + b)| + 1
  {
    SelectAppend(a, [e], Retained);
    SelectAppend(a + [e], b, Retained);
    SelectAppend(a, b, Retained);
    assert Select([e], Retained) == [e.filename];
  }

  /** The kind of an entry decides the filter together with its name: every non-directory kind is kept. */
  lemma RetainedByKind(n: Name, t: FileType)
    ensures Retained(Entry(n, Code(t))) <==> t != Directory && !IsDotName(n)
  {
  }

  /** The order in which the server lists the entries does not affect the result. */
  lemma FilenamesIgnoreListingOrder(s: seq<Entry>, t: seq<Entry>)
    requires multiset(s) == multiset(t)
    ensures Filenames(s) == Filenames(t)
  {
    SelectPermutation(s, t, Retained);
    SortIgnoresOrder(Select(s, Retained), Select(t, Retained));
  }

  /** The names of a result, listed again as entries of one non-directory kind. */
  function Relisted(names: seq<Name>, typeCode: int): seq<Entry> {
    seq(|names|, i requires 0 <= i < |names| => Entry(names[i], typeCode))
  }

  lemma {:induction false} SelectRelisted(names: seq<Name>, typeCode: int)
    requires typeCode != Code(Directory)
    requires Dot !in names && DotDot !in names
    ensures Select(Relisted(names, typeCode), Retained) == names
    decreases |names|
  {
    if names != [] {
      assert Relisted(names, typeCode)[1..] == Relisted(names[1..], typeCode);
      SelectRelisted(names[1..], typeCode);
    }
  }

  /**
   * Filtering and sorting a second time changes nothing: the result, listed
   * again as non-directory entries, comes back unchanged.
   */
  lemma FilenamesIdempotent(listing: seq<Entry>, typeCode: int)
    requires typeCode != Code(Directory)
    ensures Filenames(Relisted(Filenames(listing), typeCode)) == Filenames(listing)
  {
    var r := Filenames(listing);
    SelectRelisted(r, typeCode);
    SortOfSorted(r);
  }
}
