/**
 * The list of received files held by the DownloadFile page, and the two
 * pure updaters the page applies to it: the spread-append of a poll tick
 * and the filter-by-id of a download.
 */
module ReceivedFiles {

  /** One entry of the page's `files` list. `id` is the only key the page ever compares. */
  datatype IncomingFile = IncomingFile(id: string, filename: string, fileData: string, fileSize: int)

  /** Some entry of `files` carries `id`. */
  predicate HasId(files: seq<IncomingFile>, id: string)
  {
    exists i :: 0 <= i < |files| && files[i].id == id
  }

  /** How many entries of `files` carry `id`. */
  function CountId(files: seq<IncomingFile>, id: string): (n: nat)
    ensures n <= |files|
    ensures n == 0 <==> !HasId(files, id)
  {
    if files == [] then 0
    else
      assert HasId(files, id) <==> files[0].id == id || HasId(files[1..], id) by {
        if HasId(files[1..], id) {
          var i :| 0 <= i < |files[1..]| && files[1..][i].id == id;
          assert files[i + 1].id == id;
        }
        if HasId(files, id) && files[0].id != id {
          var i :| 0 <= i < |files| && files[i].id == id;
          assert files[1..][i - 1].id == id;
        }
      }
      (if files[0].id == id then 1 else 0) + CountId(files[1..], id)
  }

  /** Counting distributes over concatenation. */
  lemma {:induction false} CountIdConcat(a: seq<IncomingFile>, b: seq<IncomingFile>, id: string)
    ensures CountId(a + b, id) == CountId(a, id) + CountId(b, id)
    decreases |a|
  {
    if a == [] {
      assert a + b == b;
    } else {
      assert (a + b)[1..] == a[1..] + b;
      CountIdConcat(a[1..], b, id);
    }
  }

  /**
   * The state updater of a 200 answer: the new entry goes last, with no
   * check of its id against the entries already there.
   */
  function Appended(files: seq<IncomingFile>, f: IncomingFile): (r: seq<IncomingFile>)
    ensures |r| == |files| + 1
    ensures r[..|files|] == files && r[|files|] == f
    ensures CountId(r, f.id) == CountId(files, f.id) + 1
    ensures forall id :: id != f.id ==> CountId(r, id) == CountId(files, id)
  {
    var r := files + [f];
    assert r[..|files|] == files;
    forall id ensures CountId(r, id) == CountId(files, id) + CountId([f], id) {
      CountIdConcat(files, [f], id);
    }
    assert forall id :: CountId([f], id) == (if f.id == id then 1 else 0) by {
      forall id ensures CountId([f], id) == (if f.id == id then 1 else 0) {
        assert [f][1..] == [];
      }
    }
    r
  }

  /**
   * The state updater of a successful download: keep exactly the entries
   * whose id differs from `id`, in their order.
   */
  function WithoutId(files: seq<IncomingFile>, id: string): (r: seq<IncomingFile>)
    ensures |r| <= |files|
    ensures forall g :: g in r <==> g in files && g.id != id
  {
    if files == [] then []
    else
      assert files == [files[0]] + files[1..];
      if files[0].id == id then WithoutId(files[1..], id)
      else [files[0]] + WithoutId(files[1..], id)
  }

  /** No entry with `id` survives the filter, and the filter is a no-op when none was there. */
  lemma WithoutIdRemovesAll(files: seq<IncomingFile>, id: string)
    ensures !HasId(WithoutId(files, id), id)
    ensures !HasId(files, id) ==> WithoutId(files, id) == files
  {
    if !HasId(files, id) {
      WithoutIdKeepsAll(files, id);
    }
  }

  /** When no entry carries `id`, filtering changes nothing. */
  lemma {:induction false} WithoutIdKeepsAll(files: seq<IncomingFile>, id: string)
    requires forall i :: 0 <= i < |files| ==> files[i].id != id
    ensures WithoutId(files, id) == files
    decreases |files|
  {
    if files != [] {
      WithoutIdKeepsAll(files[1..], id);
      assert files == [files[0]] + files[1..];
    }
  }

  /**
   * Filtering by id distributes over concatenation: the kept entries
   * appear in the result in the order they had in the input.
   */
  lemma {:induction false} WithoutIdConcat(a: seq<IncomingFile>, b: seq<IncomingFile>, id: string)
    ensures WithoutId(a + b, id) == WithoutId(a, id) + WithoutId(b, id)
    decreases |a|
  {
    if a == [] {
      assert a + b == b;
    } else {
      assert (a + b)[0] == a[0];
      assert (a + b)[1..] == a[1..] + b;
      WithoutIdConcat(a[1..], b, id);
    }
  }

  /**
   * Filtering by id removes exactly the entries that carry `id`: the length
   * drops by their number, and every other id keeps its count.
   */
  lemma {:induction false} WithoutIdCounts(files: seq<IncomingFile>, id: string)
    ensures |WithoutId(files, id)| == |files| - CountId(files, id)
    ensures CountId(WithoutId(files, id), id) == 0
    ensures forall other :: other != id ==> CountId(WithoutId(files, id), other) == CountId(files, other)
    decreases |files|
  {
    if files != [] {
      WithoutIdCounts(files[1..], id);
      var rest := WithoutId(files[1..], id);
      if files[0].id != id {
        assert ([files[0]] + rest)[1..] == rest;
      }
    }
  }

  /** Appending an entry and then filtering by an id commutes when the ids differ. */
  lemma WithoutIdAppended(files: seq<IncomingFile>, f: IncomingFile, id: string)
    ensures WithoutId(Appended(files, f), id)
         == if f.id == id then WithoutId(files, id) else Appended(WithoutId(files, id), f)
  {
    WithoutIdConcat(files, [f], id);
    assert [f][1..] == [];
  }
}
