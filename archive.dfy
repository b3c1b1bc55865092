/** Archive entries as the archive libraries enumerate them, and the sums
    over them that the extractors use to size their progress bars. */
module Archive {

  /** One byte of file content. */
  newtype byte = b: int | 0 <= b < 256

  /** One member of an archive: its relative name, whether it is a regular
      file, the size its header declares, and the bytes it actually holds. */
  datatype Entry = Entry(name: string, isFile: bool, size: nat, content: seq<byte>)

  /** The members that are regular files, in archive order. */
  function FileEntries(es: seq<Entry>): seq<Entry>
  {
    if es == [] then []
    else
      var last := es[|es| - 1];
      FileEntries(es[..|es| - 1]) + (if last.isFile then [last] else [])
  }

  lemma FileEntriesAppend(es: seq<Entry>, e: Entry)
    ensures FileEntries(es + [e]) == FileEntries(es) + (if e.isFile then [e] else [])
  {
    assert (es + [e])[..|es|] == es;
  }

  /** Exactly the regular-file members are kept. */
  lemma {:induction false} FileEntriesMembers(es: seq<Entry>)
    ensures |FileEntries(es)| <= |es|
    ensures forall e :: e in FileEntries(es) <==> e in es && e.isFile
  {
    if es != [] {
      var init := es[..|es| - 1];
      FileEntriesMembers(init);
      assert es == init + [es[|es| - 1]];
    }
  }

  /** Sum of the declared sizes. */
  function SizeSum(es: seq<Entry>): nat
  {
    if es == [] then 0 else SizeSum(es[..|es| - 1]) + es[|es| - 1].size
  }

  /** Sum of the actual content lengths. */
  function ContentSum(es: seq<Entry>): nat
  {
    if es == [] then 0 else ContentSum(es[..|es| - 1]) + |es[|es| - 1].content|
  }

  lemma ContentSumAppend(es: seq<Entry>, e: Entry)
    ensures ContentSum(es + [e]) == ContentSum(es) + |e.content|
  {
    assert (es + [e])[..|es|] == es;
  }

  /** Every entry's header size agrees with the bytes it holds. */
  predicate SizesMatch(es: seq<Entry>)
  {
    forall i :: 0 <= i < |es| ==> es[i].size == |es[i].content|
  }

  /** When headers are truthful, declared and actual totals agree. */
  lemma {:induction false} SizeSumIsContentSum(es: seq<Entry>)
    requires SizesMatch(es)
    ensures SizeSum(es) == ContentSum(es)
  {
    if es != [] {
      var init := es[..|es| - 1];
      assert SizesMatch(init) by {
        forall i | 0 <= i < |init| ensures init[i].size == |init[i].content| {
          assert init[i] == es[i];
        }
      }
      SizeSumIsContentSum(init);
    }
  }

  /** The names of the members, in archive order. */
  function Names(es: seq<Entry>): (r: seq<string>)
    ensures |r| == |es|
    ensures forall i :: 0 <= i < |es| ==> r[i] == es[i].name
  {
    if es == [] then [] else Names(es[..|es| - 1]) + [es[|es| - 1].name]
  }

  /** No two members share a name. */
  predicate DistinctNames(es: seq<Entry>)
  {
    forall i, j :: 0 <= i < j < |es| ==> es[i].name != es[j].name
  }

  /** Keeping only the regular files keeps the names distinct. */
  lemma {:induction false} FileEntriesDistinct(es: seq<Entry>)
    requires DistinctNames(es)
    ensures DistinctNames(FileEntries(es))
  {
    if es != [] {
      var init, last := es[..|es| - 1], es[|es| - 1];
      assert DistinctNames(init) by {
        forall i, j | 0 <= i < j < |init| ensures init[i].name != init[j].name {
          assert init[i] == es[i] && init[j] == es[j];
        }
      }
      FileEntriesDistinct(init);
      FileEntriesMembers(init);
      var fe := FileEntries(init);
      forall i | 0 <= i < |fe| ensures fe[i].name != last.name {
        assert fe[i] in init;
        var k :| 0 <= k < |init| && init[k] == fe[i];
        assert es[k] == fe[i];
      }
    }
  }
}
