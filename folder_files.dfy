/** Huffman/data/FolderFileEntry.cs and Huffman/data/FileUtils.cs: the entries
    of a folder being archived or extracted, and the size of a sub-folder. */
module FolderFiles {
  import opened Base

  /** A file of the folder: `FullPath`, `RelativePath` (a C# string, so possibly
      null) and the optional payload `Data` that extraction fills in. */
  datatype FolderFileEntry = FolderFileEntry(fullPath: string, relativePath: Option<string>, data: Option<seq<byte>>)

  /** The `Where` filter of `GetFolderSize`: a non-null relative path that
      starts with `folder + "/"` (compared ordinally). */
  predicate InFolder(e: FolderFileEntry, folder: string)
  {
    e.relativePath.Some? && IsPrefix(folder + "/", e.relativePath.value)
  }

  /** The `Sum` selector: `e.Data?.Length ?? 0`. */
  function DataLength(e: FolderFileEntry): nat
  {
    if e.data.Some? then |e.data.value| else 0
  }

  /** The entries the filter keeps, in order. */
  function Where(entries: seq<FolderFileEntry>, folder: string): (r: seq<FolderFileEntry>)
    ensures forall i | 0 <= i < |r| :: InFolder(r[i], folder)
  {
    if entries == [] then []
    else
      var rest := Where(entries[1..], folder);
      if InFolder(entries[0], folder) then [entries[0]] + rest else rest
  }

  /** LINQ `Sum` over `int`: added from the front, checked at every step, so a
      partial sum above `int.MaxValue` throws `OverflowException`. */
  function SumLengths(es: seq<FolderFileEntry>, acc: int): (r: Result<int>)
    ensures r.Failure? ==> r.error == Overflow
    ensures r.Success? ==> acc <= r.value && (IsInt32(acc) ==> IsInt32(r.value))
  {
    if es == [] then Success(acc)
    else
      var next := acc + DataLength(es[0]);
      if IsInt32(next) then SumLengths(es[1..], next) else Failure(Overflow)
  }

  /** `GetFolderSize(entries, folder)`. */
  function GetFolderSize(entries: seq<FolderFileEntry>, folder: string): (r: Result<int>)
    ensures r.Failure? ==> r.error == Overflow
    ensures r.Success? ==> 0 <= r.value <= Int32Max
  {
    SumLengths(Where(entries, folder), 0)
  }

  /** Reference definition: the sum of the payload lengths of the entries
      inside `folder`. */
  function FolderBytes(entries: seq<FolderFileEntry>, folder: string): nat
  {
    if entries == [] then 0
    else (if InFolder(entries[0], folder) then DataLength(entries[0]) else 0) + FolderBytes(entries[1..], folder)
  }

  function TotalLength(es: seq<FolderFileEntry>): nat
  {
    if es == [] then 0 else DataLength(es[0]) + TotalLength(es[1..])
  }

  lemma {:induction false} WhereTotal(entries: seq<FolderFileEntry>, folder: string)
    ensures TotalLength(Where(entries, folder)) == FolderBytes(entries, folder)
  {
    if entries != [] {
      WhereTotal(entries[1..], folder);
      var rest := Where(entries[1..], folder);
      if InFolder(entries[0], folder) {
        assert ([entries[0]] + rest)[1..] == rest;
      }
    }
  }

  /** The checked sum of non-negative terms fails exactly when the total does
      not fit: partial sums only grow. */
  lemma {:induction false} SumLengthsTotal(es: seq<FolderFileEntry>, acc: int)
    requires 0 <= acc <= Int32Max
    ensures SumLengths(es, acc) ==
      if acc + TotalLength(es) <= Int32Max then Success(acc + TotalLength(es)) else Failure(Overflow)
  {
    if es != [] {
      if acc + DataLength(es[0]) <= Int32Max {
        SumLengthsTotal(es[1..], acc + DataLength(es[0]));
      }
    }
  }

  /** The folder size is the sum of the lengths of the payloads inside the
      folder, hence never negative, or `OverflowException` when that sum is
      above `int.MaxValue`. */
  lemma GetFolderSizeIsSum(entries: seq<FolderFileEntry>, folder: string)
    ensures GetFolderSize(entries, folder) ==
      if FolderBytes(entries, folder) <= Int32Max then Success(FolderBytes(entries, folder)) else Failure(Overflow)
    ensures GetFolderSize(entries, folder).Success? ==> GetFolderSize(entries, folder).value >= 0
  {
    WhereTotal(entries, folder);
    SumLengthsTotal(Where(entries, folder), 0);
  }

  /** An entry outside the folder does not change its size. */
  lemma {:induction false} OutsideIgnored(entries: seq<FolderFileEntry>, e: FolderFileEntry, folder: string)
    requires !InFolder(e, folder)
    ensures GetFolderSize(entries + [e], folder) == GetFolderSize(entries, folder)
  {
    FolderBytesSnoc(entries, e, folder);
    GetFolderSizeIsSum(entries, folder);
    GetFolderSizeIsSum(entries + [e], folder);
  }

  lemma {:induction false} FolderBytesSnoc(entries: seq<FolderFileEntry>, e: FolderFileEntry, folder: string)
    ensures FolderBytes(entries + [e], folder) == FolderBytes(entries, folder) + (if InFolder(e, folder) then DataLength(e) else 0)
  {
    if entries != [] {
      assert (entries + [e])[1..] == entries[1..] + [e];
      FolderBytesSnoc(entries[1..], e, folder);
    } else {
      assert (entries + [e])[1..] == [];
    }
  }

  /** Neither the folder itself, nor a null path, nor a path under the folder
      written with a backslash is inside it. */
  lemma NotInFolder(folder: string, full: string, rest: string, data: Option<seq<byte>>)
    ensures !InFolder(FolderFileEntry(full, Some(folder), data), folder)
    ensures !InFolder(FolderFileEntry(full, None, data), folder)
    ensures !InFolder(FolderFileEntry(full, Some(folder + "\\" + rest), data), folder)
  {
    var p := folder + "\\" + rest;
    assert p[|folder|] == '\\' && (folder + "/")[|folder|] == '/';
  }

  /** An entry inside the folder with no payload counts 0. */
  lemma NullDataCountsZero(entries: seq<FolderFileEntry>, full: string, path: string, folder: string)
    ensures GetFolderSize(entries + [FolderFileEntry(full, Some(path), None)], folder) == GetFolderSize(entries, folder)
  {
    var e := FolderFileEntry(full, Some(path), None);
    FolderBytesSnoc(entries, e, folder);
    GetFolderSizeIsSum(entries, folder);
    GetFolderSizeIsSum(entries + [e], folder);
  }
}
