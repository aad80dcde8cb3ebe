/**
 * The name test of the filter as the code states it, on the assumption that
 * the library hands the filenames over as `bytes` (the connection sets
 * `encoding=None`). They are compared with the `str` literals "." and "..";
 * in Python 3 a `bytes` never equals a `str`, so under that assumption the
 * test never removes anything. If the SFTP client decodes the names to `str`
 * instead, the test works and is `Listing.Retained`, which is also the
 * intended test against the byte strings `.` and `..` and which the rest of
 * the model uses.
 */
module DotCheck {
  import opened ByteOrder
  import opened FileTypes
  import opened Listing

  /** The two kinds of Python value that meet in the membership test. */
  datatype PyValue = PyBytes(bytes: Name) | PyStr(text: string)

  /** Python 3 `==` between them: values of different kinds are never equal. */
  predicate PyEq(x: PyValue, y: PyValue)
    ensures PyEq(x, y) <==> x == y
  {
    match (x, y)
    case (PyBytes(a), PyBytes(b)) => a == b
    case (PyStr(a), PyStr(b)) => a == b
    case _ => false
  }

  /** Python's `x not in xs` for a list `xs`: no element of the list equals `x`. */
  predicate PyNotIn(x: PyValue, xs: seq<PyValue>)
    ensures PyNotIn(x, xs) <==> x !in xs
  {
    forall i :: 0 <= i < |xs| ==> !PyEq(x, xs[i])
  }

  /** The filter condition as written: a bytes filename compared with str literals. */
  predicate RetainedAsWritten(e: Entry) {
    e.typeCode != Code(Directory) && PyNotIn(PyBytes(e.filename), [PyStr("."), PyStr("..")])
  }

  /** The printed result as the code computes it. */
  function FilenamesAsWritten(listing: seq<Entry>): (r: seq<Name>)
    ensures Sorted(r)
    ensures multiset(r) == multiset(Select(listing, RetainedAsWritten))
  {
    Sort(Select(listing, RetainedAsWritten))
  }

  /** As written, the name test never fires: only the type decides. */
  lemma NameTestNeverFires(e: Entry)
    ensures RetainedAsWritten(e) <==> e.typeCode != Code(Directory)
  {
    var x := PyBytes(e.filename);
    var xs := [PyStr("."), PyStr("..")];
    assert !PyEq(x, xs[0]) && !PyEq(x, xs[1]);
  }

  /** The input that shows it: a `.` the server reports as a regular file is printed. */
  lemma DotEntryLeaks()
    ensures FilenamesAsWritten([Entry(Dot, Code(Regular))]) == [Dot]
    ensures Filenames([Entry(Dot, Code(Regular))]) == []
  {
    var listing := [Entry(Dot, Code(Regular))];
    NameTestNeverFires(listing[0]);
    assert listing[1..] == [];
    assert Select(listing, RetainedAsWritten) == [Dot];
    SortOfSorted([Dot]);
    assert Select(listing, Retained) == [];
  }

  /** With byte-string literals in place of the str ones, the test is the intended one. */
  lemma BytesLiteralsGiveIntendedTest(e: Entry)
    ensures Retained(e) <==>
      e.typeCode != Code(Directory) && PyNotIn(PyBytes(e.filename), [PyBytes(Dot), PyBytes(DotDot)])
  {
    var xs := [PyBytes(Dot), PyBytes(DotDot)];
    assert PyNotIn(PyBytes(e.filename), xs) <==> !PyEq(PyBytes(e.filename), xs[0]) && !PyEq(PyBytes(e.filename), xs[1]);
  }

  /** Two filter conditions that agree on every entry of a listing select the same names. */
  lemma {:induction false} SelectAgree(listing: seq<Entry>, k1: Entry -> bool, k2: Entry -> bool)
    requires forall i :: 0 <= i < |listing| ==> k1(listing[i]) == k2(listing[i])
    ensures Select(listing, k1) == Select(listing, k2)
    decreases |listing|
  {
    if listing != [] {
      assert forall i :: 0 <= i < |listing[1..]| ==> listing[1..][i] == listing[i + 1];
      SelectAgree(listing[1..], k1, k2);
    }
  }

  /**
   * When the server reports `.` and `..` as directories, as servers usually
   * do, the type test removes them and the code as written prints the
   * intended result.
   */
  lemma AgreeWhenDotsAreDirectories(listing: seq<Entry>)
    requires forall i :: 0 <= i < |listing| && IsDotName(listing[i].filename) ==>
      listing[i].typeCode == Code(Directory)
    ensures FilenamesAsWritten(listing) == Filenames(listing)
  {
    forall i | 0 <= i < |listing|
      ensures RetainedAsWritten(listing[i]) == Retained(listing[i])
    {
      NameTestNeverFires(listing[i]);
    }
    SelectAgree(listing, RetainedAsWritten, Retained);
  }
}
