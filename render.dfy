/** The loop of feed-render.py over the top-level outline entries: each entry's body
    is consumed line by line through an iterator, and each item is appended to the
    list of items in outline order. */
module Render {
  import opened Wrappers
  import opened PyStr
  import opened Episode

  /** `iter(body.splitlines())`: the lines of a body, handed out one at a time. */
  class LineCursor {
    const lines: seq<string>
    var pos: nat

    ghost predicate Valid()
      reads this
    {
      pos <= |lines|
    }

    /** The lines not handed out yet. */
    ghost function Remaining(): seq<string>
      reads this
      requires Valid()
    {
      lines[pos..]
    }

    constructor (body: string)
      ensures Valid() && lines == SplitLines(body) && Remaining() == SplitLines(body)
    {
      lines := SplitLines(body);
      pos := 0;
    }

    /** `next(it)`: the next line, or StopIteration once every line has been handed out. */
    method Next() returns (r: Result<string, Error>)
      requires Valid()
      modifies this
      ensures Valid()
      ensures old(Remaining()) == [] ==> r == Failure(StopIteration) && Remaining() == []
      ensures old(Remaining()) != [] ==>
                r == Success(old(Remaining())[0]) && Remaining() == old(Remaining())[1..]
    {
      if pos == |lines| {
        r := Failure(StopIteration);
      } else {
        r := Success(lines[pos]);
        pos := pos + 1;
      }
    }
  }

  /** The loop body for one entry: the date is the first line `next` yields, the
      enclosure link the second; the result is the item `EntryItem` describes. */
  method BuildItem(e: Entry, conf: Config, strptime: (string, string) -> Option<Date>) returns (r: Result<Item, Error>)
    ensures r == EntryItem(e, conf, strptime)
  {
    var body := new LineCursor(e.body);
    var dateLine := body.Next();
    if dateLine.Failure? {
      return Failure(dateLine.error);
    }
    var pubDate := strptime(dateLine.value, conf.item.dateFormat);
    if pubDate.None? {
      return Failure(DateParseError(dateLine.value, conf.item.dateFormat));
    }
    var linkLine := body.Next();
    if linkLine.Failure? {
      return Failure(linkLine.error);
    }
    r := ItemFrom(e, conf, pubDate.value, linkLine.value);
  }

  /** The values of a sequence of results in order, or the error of the first failure. */
  function CollectAll<T, E>(rs: seq<Result<T, E>>): Result<seq<T>, E>
  {
    if rs == [] then Success([])
    else
      match CollectAll(rs[..|rs| - 1])
      case Failure(err) => Failure(err)
      case Success(vs) =>
        match rs[|rs| - 1]
        case Failure(err) => Failure(err)
        case Success(v) => Success(vs + [v])
  }

  /** Once a prefix has failed, the whole sequence fails with the same error. */
  lemma {:induction false} CollectAllSticks<T, E>(rs: seq<Result<T, E>>, k: nat)
    requires k <= |rs| && CollectAll(rs[..k]).Failure?
    ensures CollectAll(rs) == CollectAll(rs[..k])
    decreases |rs| - k
  {
    if k < |rs| {
      assert rs[..k + 1][..k] == rs[..k];
      CollectAllSticks(rs, k + 1);
    } else {
      assert rs[..k] == rs;
    }
  }

  /** Collecting succeeds exactly when every result does, keeps every value at its
      position, and otherwise reports the error of the first failure. */
  lemma {:induction false} CollectAllSpec<T, E>(rs: seq<Result<T, E>>)
    ensures CollectAll(rs).Success? <==> forall i :: 0 <= i < |rs| ==> rs[i].Success?
    ensures CollectAll(rs).Success? ==>
              |CollectAll(rs).value| == |rs|
              && forall i :: 0 <= i < |rs| ==> CollectAll(rs).value[i] == rs[i].value
    ensures CollectAll(rs).Failure? ==>
              exists k :: 0 <= k < |rs| && rs[k] == Failure(CollectAll(rs).error)
                && forall i :: 0 <= i < k ==> rs[i].Success?
  {
    if rs != [] {
      var n := |rs| - 1;
      CollectAllSpec(rs[..n]);
      assert forall i :: 0 <= i < n ==> rs[..n][i] == rs[i];
      if CollectAll(rs[..n]).Failure? {
        var k :| 0 <= k < n && rs[..n][k] == Failure(CollectAll(rs[..n]).error)
                && forall i :: 0 <= i < k ==> rs[..n][i].Success?;
        assert rs[k] == Failure(CollectAll(rs).error);
      } else if rs[n].Failure? {
        assert forall i :: 0 <= i < n ==> rs[i].Success?;
      }
    }
  }

  /** The outcome of the loop body for each top-level entry, in outline order. */
  function Outcomes(entries: seq<Entry>, conf: Config, strptime: (string, string) -> Option<Date>): (rs: seq<Result<Item, Error>>)
    ensures |rs| == |entries|
    ensures forall i :: 0 <= i < |entries| ==> rs[i] == EntryItem(entries[i], conf, strptime)
  {
    seq(|entries|, i requires 0 <= i < |entries| => EntryItem(entries[i], conf, strptime))
  }

  /** The run over all top-level entries: succeeds exactly when every entry yields an
      item, then holds one item per entry in outline order; otherwise it fails with the
      error of the first entry that yields none, every earlier entry having succeeded. */
  lemma RenderedItems(entries: seq<Entry>, conf: Config, strptime: (string, string) -> Option<Date>)
    ensures var r := CollectAll(Outcomes(entries, conf, strptime));
            && (r.Success? <==> forall i :: 0 <= i < |entries| ==> EntryItem(entries[i], conf, strptime).Success?)
            && (r.Success? ==>
                  |r.value| == |entries|
                  && forall i :: 0 <= i < |entries| ==> r.value[i] == EntryItem(entries[i], conf, strptime).value)
            && (r.Failure? ==>
                  exists k :: 0 <= k < |entries|
                    && EntryItem(entries[k], conf, strptime) == Failure(r.error)
                    && forall i :: 0 <= i < k ==> EntryItem(entries[i], conf, strptime).Success?)
  {
    CollectAllSpec(Outcomes(entries, conf, strptime));
  }

  /** `for child in org.children: ... items.append(item)`: the items are built entry by
      entry and appended in outline order; the first entry that cannot be built aborts the
      run with its error (no entry is skipped and no partial list is returned). */
  method RenderItems(entries: seq<Entry>, conf: Config, strptime: (string, string) -> Option<Date>)
    returns (r: Result<seq<Item>, Error>)
    ensures r == CollectAll(Outcomes(entries, conf, strptime))
  {
    ghost var rs := Outcomes(entries, conf, strptime);
    var items: seq<Item> := [];
    var n := 0;
    while n < |entries|
      invariant 0 <= n <= |entries|
      invariant CollectAll(rs[..n]) == Success(items)
    {
      var item := BuildItem(entries[n], conf, strptime);
      assert rs[..n + 1][..n] == rs[..n];
      if item.Failure? {
        CollectAllSticks(rs, n + 1);
        return Failure(item.error);
      }
      items := items + [item.value];
      n := n + 1;
    }
    assert rs[..n] == rs;
    r := Success(items);
  }
}
