/**
 * The renaming of the original infeasible Webarena result folders: the folders are taken
 * in sorted order, a trailing `_89` is dropped, and each gets the suffix
 * `.unachievable_original_webarena_tasks-{k}` with its 1-based position; the new names
 * are the list saved afterwards.
 */
module RenameFolders {
  import opened Strings
  import opened Sorting

  const Suffix: string := ".unachievable_original_webarena_tasks-"

  /** An entry of the target directory. */
  datatype Entry = Entry(name: string, isDir: bool)

  /** The names of the directories among the entries, in listing order. */
  function Folders(entries: seq<Entry>): (r: seq<string>)
    ensures forall n :: n in r <==> exists i :: 0 <= i < |entries| && entries[i].isDir && entries[i].name == n
    decreases |entries|
  {
    if |entries| == 0 then []
    else
      var rest := Folders(entries[1..]);
      assert forall i :: 1 <= i < |entries| ==> entries[i] == entries[1..][i - 1];
      (if entries[0].isDir then [entries[0].name] else []) + rest
  }

  /** The folder name with one trailing `_89` removed. */
  function BaseName(name: string): (r: string)
    ensures EndsWith(name, "_89") ==> r + "_89" == name
    ensures !EndsWith(name, "_89") ==> r == name
  {
    if EndsWith(name, "_89") then
      assert name == name[..|name| - 3] + name[|name| - 3..];
      name[..|name| - 3]
    else name
  }

  /** The new name of the folder at 1-based position `k`. */
  function NewName(name: string, k: nat): string {
    BaseName(name) + Suffix + NatToString(k)
  }

  /** The position after the last `-` of a new name: where its index starts. */
  function IndexOf(newName: string): string {
    newName[LastIndex(newName, '-') + 1..]
  }

  /** The index can be read back from a new name: it is what follows the suffix's final dash. */
  lemma NewNameIndex(name: string, k: nat)
    ensures IndexOf(NewName(name, k)) == NatToString(k)
  {
    var pre := BaseName(name) + Suffix;
    var digits := NatToString(k);
    var r := pre + digits;
    assert r == NewName(name, k);
    assert r[|pre| - 1] == '-';
    var last := LastIndex(r, '-');
    assert forall i :: |pre| <= i < |r| ==> r[i] == digits[i - |pre|];
    assert last == |pre| - 1;
    assert r[last + 1..] == digits;
  }

  /** Two folders at different positions never receive the same new name. */
  lemma NewNamesDistinct(a: string, b: string, j: nat, k: nat)
    requires j != k
    ensures NewName(a, j) != NewName(b, k)
  {
    NewNameIndex(a, j);
    NewNameIndex(b, k);
    NatToStringInjective(j, k);
  }

  /** The list of new names: one per folder, in sorted order, numbered from 1. */
  function NewFolderNames(entries: seq<Entry>): (r: seq<string>)
    ensures |r| == |Folders(entries)|
    ensures var sorted := SortLex(Folders(entries));
      && SortedLex(sorted)
      && multiset(sorted) == multiset(Folders(entries))
      && forall i :: 0 <= i < |r| ==> r[i] == NewName(sorted[i], i + 1)
  {
    Numbered(SortLex(Folders(entries)))
  }

  /** The new names of already sorted folders, numbered from 1. */
  function Numbered(sorted: seq<string>): (r: seq<string>)
    ensures |r| == |sorted|
    ensures forall i :: 0 <= i < |r| ==> r[i] == NewName(sorted[i], i + 1)
  {
    seq(|sorted|, i requires 0 <= i < |sorted| => NewName(sorted[i], i + 1))
  }

  /** The saved list has no duplicates, whatever the folder names are. */
  lemma NewFolderNamesDistinct(entries: seq<Entry>)
    ensures var r := NewFolderNames(entries);
      forall i, j :: 0 <= i < j < |r| ==> r[i] != r[j]
  {
    var r := NewFolderNames(entries);
    var sorted := SortLex(Folders(entries));
    forall i, j | 0 <= i < j < |r| ensures r[i] != r[j] {
      NewNamesDistinct(sorted[i], sorted[j], i + 1, j + 1);
    }
  }

  /** The new name keeps the folder's base, and a folder named `..._89` loses exactly that ending. */
  lemma NewNameShape(name: string, k: nat)
    ensures StartsWith(NewName(name, k), BaseName(name))
    ensures EndsWith(name, "_89") ==> StartsWith(NewName(name, k), name[..|name| - 3]) && BaseName(name) + "_89" == name
    ensures !EndsWith(name, "_89") ==> StartsWith(NewName(name, k), name)
  {
    var b := BaseName(name);
    assert NewName(name, k)[..|b|] == b;
  }
}
