# SFTP directory listing: filter and sort

This project models the logic of a small demonstration client. The client
connects over SSH, opens an SFTP session, and reads the directory `/data`.
It then prints the names of the entries that are not directories and not
`.` or `..`, sorted.

The modelled part has two pieces:

- The SFTP file-type enumeration `SSHFilexferTypeEnum`. It has five members
  with the codes of section 5.2 of draft-ietf-secsh-filexfer-04: REGULAR = 1,
  DIRECTORY = 2, SYMLINK = 3, SPECIAL = 4 and UNKNOWN = 5 (module
  `FileTypes`).
- The expression that builds the printed list (module `Listing`). It filters
  the entries returned by `readdir`, keeps the filename of each survivor, and
  sorts those names.

The model assumes that the library hands the filenames over as raw byte
strings. The connection sets `encoding=None` (index.py:36), but the SFTP
client is opened at index.py:39 with its own defaults, and the path passed to
`readdir` at index.py:40 is a `str`. Which type the names really have is
decided inside the library, which is not part of this model. The model uses
`seq<bv8>` for names and Python's order on `bytes`: octet by
octet, with a proper prefix first (module `ByteOrder`). `sorted()` is
modelled as insertion sort. `ByteOrder.SortUnique` proves that its result is
the only sorted rearrangement of its input. So any correct sort gives the
same list. Stability cannot be observed, because equal keys are identical
byte strings.

An entry's type is kept as the plain integer the library reports in
`attrs.type`. The filter compares that integer with DIRECTORY, so a code
outside 1..5 counts as "not a directory" and the entry is kept. The model
does the same.

The test against `"."` and `".."` uses `str` literals. If the filenames are
`bytes`, that comparison never succeeds in Python 3 (see Findings). If they
are decoded `str` values, it works as intended. The design intent is to
exclude both pseudo-entries. `Listing.Filenames` models that intent, and the
rest of the model uses it. Module `DotCheck` models the code as written under
the bytes assumption and shows where the two differ.

## Model

| member | source | states |
|---|---|---|
| `FileTypes.Code` | index.py:22-26 | every file type has a code in 1..5, and the code is 2 exactly for DIRECTORY |
| `FileTypes.FromCode` | index.py:7-26 | looking up a code succeeds exactly for 1..5 (otherwise Python raises ValueError, modelled as None), and the member found has that code |
| `FileTypes.CodeInjective` | index.py:22-26 | distinct file types have distinct codes |
| `FileTypes.FromCodeOfCode` | index.py:22-26 | looking up a type's code gives back that type |
| `ByteOrder.LessEq` | index.py:41 | Python's `<=` on `bytes`, used by `sorted()`: compare octet by octet as unsigned values, and a proper prefix comes first. `LessEqCharacterized` states this without recursion, and the four lemmas after it prove it a total order |
| `ByteOrder.LessEqCharacterized` | index.py:41 | the recursive byte order holds exactly when `a` is a prefix of `b`, or `a` is smaller at the first octet where they differ |
| `ByteOrder.LessEqReflexive` | index.py:41 | every name is at or below itself |
| `ByteOrder.LessEqAntisymmetric` | index.py:41 | two names each at or below the other are equal |
| `ByteOrder.LessEqTransitive` | index.py:41 | the byte order is transitive |
| `ByteOrder.LessEqTotal` | index.py:41 | any two names are comparable |
| `ByteOrder.Insert` | index.py:41 | inserting into a sorted list keeps it sorted and adds exactly one copy of the name |
| `ByteOrder.Sort` | index.py:41 | `sorted()` returns a sorted list that is a permutation of its input, duplicates included |
| `ByteOrder.SortedPermutationUnique` | index.py:41 | two sorted lists with the same multiset of names are equal |
| `ByteOrder.SortUnique` | index.py:41 | a list is the sort of `s` exactly when it is sorted and a permutation of `s` |
| `ByteOrder.SortOfSorted` | index.py:41 | sorting an already sorted list returns it unchanged |
| `ByteOrder.SortIgnoresOrder` | index.py:41 | inputs that are permutations of each other sort to the same list |
| `Listing.Retained` | index.py:44-45 | the filter condition: the type code is not DIRECTORY's and the name is neither `.` nor `..`. `RetainedByKind` states it for each kind |
| `Listing.Select` | index.py:42-45 | the generator yields at most one name per entry |
| `Listing.SelectMembers` | index.py:42-45 | a name is yielded exactly when some accepted entry carries it |
| `Listing.SelectAppend` | index.py:42-45 | the generator works entry by entry: a split listing yields the two parts' names, concatenated |
| `Listing.SelectPermutation` | index.py:42-45 | listings that are permutations of each other yield the same names, counted with multiplicity |
| `Listing.Filenames` | index.py:41-46 | the printed list is sorted and is a permutation of the kept entries' filenames, duplicates included. It is no longer than the listing (so an empty listing prints an empty list) and never contains `.` or `..` |
| `Listing.FilenamesMembers` | index.py:41-46 | a name is printed exactly when some entry that is not a directory and not `.`/`..` carries it |
| `Listing.DroppedEntryIgnored` | index.py:44-45 | adding a directory entry, or an entry named `.` or `..`, anywhere in the listing leaves the printed list unchanged |
| `Listing.KeptEntryCounted` | index.py:41-46 | adding a kept entry anywhere adds exactly one more copy of its filename, even if the name is already printed |
| `Listing.RetainedByKind` | index.py:44-45 | an entry of a given kind is kept exactly when the kind is not DIRECTORY and the name is not `.` or `..`. So REGULAR, SYMLINK, SPECIAL and UNKNOWN entries are all kept |
| `Listing.FilenamesIgnoreListingOrder` | index.py:40-46 | the order in which the server lists the entries does not affect the printed list |
| `Listing.FilenamesIdempotent` | index.py:41-46 | feeding the printed names back in as non-directory entries and filtering and sorting again returns the same list |
| `DotCheck.PyEq` | index.py:45 | Python 3 `==` between a `bytes` and a `str` value: it holds exactly when the two are the same value, so a `bytes` never equals a `str` |
| `DotCheck.PyNotIn` | index.py:45 | Python's `not in` on a list: it holds exactly when the value is not an element of the list |
| `DotCheck.RetainedAsWritten` | index.py:44-45 | the filter condition as written, with the filename as `bytes` and the literals as `str`. `NameTestNeverFires` proves that it reduces to the type test alone |
| `DotCheck.FilenamesAsWritten` | index.py:41-46 | the list the code as written prints is sorted and is a permutation of the names its filter keeps |
| `DotCheck.NameTestNeverFires` | index.py:45 | as written, the test against `"."` and `".."` removes nothing, so only the type decides |
| `DotCheck.DotEntryLeaks` | index.py:45 | a `.` entry reported as a regular file is printed by the code as written but not by the intended filter |
| `DotCheck.BytesLiteralsGiveIntendedTest` | index.py:45 | with byte-string literals in place of the str ones, the membership test is exactly the intended filter |
| `DotCheck.AgreeWhenDotsAreDirectories` | index.py:44-45 | when the server reports `.` and `..` as directories, the code as written prints the intended list |
| `Scenarios.DuplicatesKept` | index.py:41-46 | two non-directory entries with the same name print that name twice |
| `Scenarios.FilesAmongDirectories` | index.py:41-46 | two files listed out of order, together with a subdirectory, `.` and `..`, print as just the two files in byte order |
| `Scenarios.NonDirectoryKindsKept` | index.py:41-46 | a symlink, a special file and an entry of unknown kind are all printed, in byte order |
| `Scenarios.ExampleDirectory` | index.py:41-46 | the listing b.txt, sub/, ., .., a.txt prints a.txt, b.txt |
| `Scenarios.ExampleNonDirectories` | index.py:41-46 | the listing link, dev0, weird (symlink, special, unknown) prints dev0, link, weird |

## Left out

- Connecting with `asyncssh.connect` and its options (host, user name, password, `known_hosts=None`), index.py:30-38: SSH transport through an external library. The model takes filenames to be raw bytes; that the library delivers them so is an assumption, not something the modelled code shows.
- `start_sftp_client` and `readdir`, index.py:39-40: SFTP I/O inside the library. The result of `readdir` is the input sequence of `Listing.Entry` values. Of each entry's attributes, only `type` is modelled.
- Filenames decoded to `str`: if the SFTP client decodes the names as UTF-8, `sorted()` orders them by code point, and UTF-8 byte order gives the same order, so `Listing.Filenames` models that reading too; the str test at index.py:45 then matches `Listing.Retained`. A name that is not valid UTF-8 would make strict decoding in `readdir` raise, which is outside the modelled code. The UTF-8 encoding itself is not modelled.
- `print`, index.py:47: output I/O.
- `sleep(5)` and `asyncio.run`, index.py:51-52: timing and the event loop have no logical content.
- Releasing the async context managers on exit and on cancellation: runtime behaviour, not sequential logic.
- Timsort, the algorithm behind `sorted()`: the model sorts by insertion instead. Both give the same list, by `ByteOrder.SortUnique`.

## Findings

| source | as written | input that shows it | evidently intended | confidence | as-written member | corrected member |
|---|---|---|---|---|---|---|
| index.py:45 | If the filename is a `bytes` value, as `encoding=None` at index.py:36 suggests, it is looked up in a list of `str` literals. In Python 3 a `bytes` never equals a `str`, so this test never removes an entry. | A listing with one entry named `.` whose type is REGULAR (1). The code as written prints it. | Compare with the byte strings `.` and `..`, so that neither is ever printed, whatever type the server reports | low: depends on the library delivering `bytes`, which the modelled code does not show; not executed | `DotCheck.DotEntryLeaks` | `Listing.Filenames` |
