/** `dataUri(background, backgroundImage, fontFaces)`: collects the data URIs
    embedded in a component's background, background-image and @font-face src
    values, measures them, sorts them largest first and totals their sizes. */
module DataUri {
  import opened Wrappers
  import opened RegexScan
  import opened DataUriEntry
  import opened SizeSort

  /** The @font-face declarations; only their `src` values are read. */
  datatype FontFaces = FontFaces(src: seq<string>)

  datatype Total = Total(raw: nat, fmt: string)

  /** The object the analyser returns. */
  datatype Summary = Summary(total: Total, data: seq<Entry>)

  /** `[].concat(background).concat(backgroundImage).concat(fontFaces.src)`. */
  function Props(background: seq<string>, backgroundImage: seq<string>, fontFaces: FontFaces): (r: seq<string>)
    ensures |r| == |background| + |backgroundImage| + |fontFaces.src|
    ensures forall v :: v in r <==> v in background || v in backgroundImage || v in fontFaces.src
  {
    background + backgroundImage + fontFaces.src
  }

  /** The values that pass `/data:/.test(value)`, in order. */
  function DataValues(props: seq<string>): (r: seq<string>)
    ensures |r| <= |props|
  {
    if props == [] then []
    else DataValues(props[..|props| - 1])
         + (if Contains(props[|props| - 1], Marker) then [props[|props| - 1]] else [])
  }

  /** The `forEach` over the values: the pushed entries, or the first TypeError
      thrown, which ends the analysis. */
  function Collect(props: seq<string>, formatBytes: nat -> string): (r: Result<seq<Entry>, Error>)
    ensures r.Success? ==> |r.value| <= |props|
  {
    if props == [] then Success([])
    else
      match Collect(props[..|props| - 1], formatBytes)
      case Failure(err) => Failure(err)
      case Success(entries) =>
        var value := props[|props| - 1];
        if !Contains(value, Marker) then Success(entries)
        else
          match MakeEntry(value, formatBytes)
          case Failure(err) => Failure(err)
          case Success(e) => Success(entries + [e])
  }

  /** Sum of the entries' byte sizes. */
  function TotalSize(s: seq<Entry>): (n: nat)
    ensures forall i :: 0 <= i < |s| ==> s[i].sizeRaw <= n
  {
    if s == [] then 0 else TotalSize(s[..|s| - 1]) + s[|s| - 1].sizeRaw
  }

  /** What a call returns: the entries sorted largest first, their total and
      its formatted form, or the TypeError that escapes. */
  function Analyze(background: seq<string>, backgroundImage: seq<string>, fontFaces: FontFaces,
                   formatBytes: nat -> string): (r: Result<Summary, Error>)
    ensures r.Success? ==> |r.value.data| <= |background| + |backgroundImage| + |fontFaces.src|
    ensures r.Success? ==> r.value.total.fmt == formatBytes(r.value.total.raw)
  {
    match Collect(Props(background, backgroundImage, fontFaces), formatBytes)
    case Failure(err) => Failure(err)
    case Success(entries) =>
      var data := SortBySize(entries);
      var raw := TotalSize(data);
      Success(Summary(Total(raw, formatBytes(raw)), data))
  }

  /** The analyser as the source runs it: push the entries in a loop, sort the
      array in place, then add the sizes up in a second loop. */
  method DataUri(background: seq<string>, backgroundImage: seq<string>, fontFaces: FontFaces,
                 formatBytes: nat -> string) returns (r: Result<Summary, Error>)
    ensures r == Analyze(background, backgroundImage, fontFaces, formatBytes)
    ensures r.Success? ==> NonIncreasing(r.value.data)
    ensures r.Success? ==> r.value.total.raw == TotalSize(r.value.data)
                           && r.value.total.fmt == formatBytes(r.value.total.raw)
  {
    var props := background + backgroundImage + fontFaces.src;
    var collected := PushEntries(props, formatBytes);
    if collected.Failure? {
      return Failure(collected.error);
    }
    var data := collected.value;
    var sorted := new Entry[|data|](k requires 0 <= k < |data| => data[k]);
    assert sorted[..] == data;
    SortInPlace(sorted);
    var raw := SumSizes(sorted);
    var fmt := formatBytes(raw);
    SortBySizeSorted(data);
    r := Success(Summary(Total(raw, fmt), sorted[..]));
  }

  /** The first `forEach`: tests each value for `data:` and pushes its entry;
      the first TypeError ends the loop and the call. */
  method PushEntries(props: seq<string>, formatBytes: nat -> string) returns (r: Result<seq<Entry>, Error>)
    ensures r == Collect(props, formatBytes)
  {
    var data: seq<Entry> := [];
    var i := 0;
    while i < |props|
      invariant 0 <= i <= |props|
      invariant Collect(props[..i], formatBytes) == Success(data)
    {
      var value := props[i];
      assert props[..i + 1][..i] == props[..i];
      if Contains(value, Marker) {
        var entry := MakeEntry(value, formatBytes);
        if entry.Failure? {
          CollectFailurePersists(props, i + 1, formatBytes);
          return Failure(entry.error);
        }
        data := data + [entry.value];
      }
      i := i + 1;
    }
    assert props[..i] == props;
    r := Success(data);
  }

  /** The second `forEach`: `total.raw += item.sizeRaw` over the sorted entries. */
  method SumSizes(a: array<Entry>) returns (raw: nat)
    ensures raw == TotalSize(a[..])
  {
    raw := 0;
    var j := 0;
    while j < a.Length
      invariant 0 <= j <= a.Length
      invariant raw == TotalSize(a[..j])
    {
      assert a[..j + 1][..j] == a[..j];
      raw := raw + a[j].sizeRaw;
      j := j + 1;
    }
    assert a[..j] == a[..];
  }

  // ----- the collecting loop -----

  /** Once a prefix of the values throws, the whole call throws the same error. */
  lemma {:induction false} CollectFailurePersists(props: seq<string>, n: nat, formatBytes: nat -> string)
    requires n <= |props|
    requires Collect(props[..n], formatBytes).Failure?
    ensures Collect(props, formatBytes) == Collect(props[..n], formatBytes)
    decreases |props| - n
  {
    if n < |props| {
      var init := props[..|props| - 1];
      assert init[..n] == props[..n];
      CollectFailurePersists(init, n, formatBytes);
    } else {
      assert props[..n] == props;
    }
  }

  /** Filtering distributes over concatenation. */
  lemma {:induction false} DataValuesAppend(a: seq<string>, b: seq<string>)
    ensures DataValues(a + b) == DataValues(a) + DataValues(b)
    decreases |b|
  {
    if b == [] {
      assert a + b == a;
    } else {
      assert (a + b)[..|a + b| - 1] == a + b[..|b| - 1];
      DataValuesAppend(a, b[..|b| - 1]);
    }
  }

  /** Values enter in the order background, background-image, font-face src. */
  lemma PropsOrder(background: seq<string>, backgroundImage: seq<string>, fontFaces: FontFaces)
    ensures DataValues(Props(background, backgroundImage, fontFaces))
            == DataValues(background) + DataValues(backgroundImage) + DataValues(fontFaces.src)
  {
    DataValuesAppend(background + backgroundImage, fontFaces.src);
    DataValuesAppend(background, backgroundImage);
  }

  /** The filter keeps exactly the values that mention `data:`. */
  lemma {:induction false} DataValuesMembers(props: seq<string>)
    ensures forall v :: v in DataValues(props) <==> v in props && Contains(v, Marker)
  {
    if props != [] {
      DataValuesMembers(props[..|props| - 1]);
      assert props == props[..|props| - 1] + [props[|props| - 1]];
    }
  }

  /** Every value in `dv` makes an entry. */
  ghost predicate AllBuild(dv: seq<string>, formatBytes: nat -> string) {
    forall j :: 0 <= j < |dv| ==> MakeEntry(dv[j], formatBytes).Success?
  }

  /** The j-th value that mentions `data:` makes the j-th pushed entry, and the
      loop completes exactly when every such value makes one. */
  lemma {:induction false} CollectOnePerDataValue(props: seq<string>, formatBytes: nat -> string)
    ensures Collect(props, formatBytes).Success? <==> AllBuild(DataValues(props), formatBytes)
    ensures var dv := DataValues(props);
            Collect(props, formatBytes).Success? ==>
              |Collect(props, formatBytes).value| == |dv| &&
              forall j :: 0 <= j < |dv| ==>
                Collect(props, formatBytes).value[j] == MakeEntry(dv[j], formatBytes).value
  {
    if props != [] {
      var init, value := props[..|props| - 1], props[|props| - 1];
      CollectOnePerDataValue(init, formatBytes);
      var dv, dv0 := DataValues(props), DataValues(init);
      if !Contains(value, Marker) {
        assert dv == dv0;
        assert Collect(props, formatBytes) == Collect(init, formatBytes);
      } else {
        assert dv == dv0 + [value];
        if Collect(init, formatBytes).Failure? {
          var j :| 0 <= j < |dv0| && !MakeEntry(dv0[j], formatBytes).Success?;
          assert dv[j] == dv0[j];
        } else if MakeEntry(value, formatBytes).Failure? {
          assert dv[|dv0|] == value;
        } else {
          var es := Collect(props, formatBytes).value;
          assert es == Collect(init, formatBytes).value + [MakeEntry(value, formatBytes).value];
        }
      }
    }
  }

  /** The error a failing call reports belongs to the `j`-th value mentioning
      `data:`, and every earlier such value made an entry. */
  ghost predicate FirstFailureAt(dv: seq<string>, j: nat, formatBytes: nat -> string, err: Error) {
    j < |dv| && MakeEntry(dv[j], formatBytes) == Failure(err)
    && forall i :: 0 <= i < j ==> MakeEntry(dv[i], formatBytes).Success?
  }

  lemma FirstFailureExtends(dv0: seq<string>, extra: seq<string>, j: nat,
                            formatBytes: nat -> string, err: Error)
    requires FirstFailureAt(dv0, j, formatBytes, err)
    ensures FirstFailureAt(dv0 + extra, j, formatBytes, err)
  {
    assert forall i :: 0 <= i <= j ==> (dv0 + extra)[i] == dv0[i];
  }

  /** When the call throws, it throws the error of the first value mentioning
      `data:` whose entry cannot be built; every earlier one was fine. */
  lemma {:induction false} CollectFirstError(props: seq<string>, formatBytes: nat -> string)
    requires Collect(props, formatBytes).Failure?
    ensures exists j :: FirstFailureAt(DataValues(props), j, formatBytes, Collect(props, formatBytes).error)
  {
    var init, value := props[..|props| - 1], props[|props| - 1];
    var dv0 := DataValues(init);
    var extra := if Contains(value, Marker) then [value] else [];
    assert DataValues(props) == dv0 + extra;
    if Collect(init, formatBytes).Failure? {
      CollectFirstError(init, formatBytes);
      var j :| FirstFailureAt(dv0, j, formatBytes, Collect(init, formatBytes).error);
      FirstFailureExtends(dv0, extra, j, formatBytes, Collect(init, formatBytes).error);
    } else {
      CollectOnePerDataValue(init, formatBytes);
      assert (dv0 + extra)[|dv0|] == value;
      assert forall i :: 0 <= i < |dv0| ==> (dv0 + extra)[i] == dv0[i];
      assert FirstFailureAt(dv0 + extra, |dv0|, formatBytes, Collect(props, formatBytes).error);
    }
  }

  // ----- the total -----

  lemma {:induction false} TotalSizeAppend(a: seq<Entry>, b: seq<Entry>)
    ensures TotalSize(a + b) == TotalSize(a) + TotalSize(b)
    decreases |b|
  {
    if b == [] {
      assert a + b == a;
    } else {
      assert (a + b)[..|a + b| - 1] == a + b[..|b| - 1];
      TotalSizeAppend(a, b[..|b| - 1]);
    }
  }

  /** Putting `x` between `front` and `back` adds its size to the total. */
  lemma {:induction false} TotalSizeSplice(front: seq<Entry>, x: Entry, back: seq<Entry>)
    ensures TotalSize(front + [x] + back) == TotalSize(front + back) + x.sizeRaw
  {
    assert (front + [x])[..|front + [x]| - 1] == front;
    TotalSizeAppend(front + [x], back);
    TotalSizeAppend(front, back);
  }

  /** Taking the entry at `q` out of `b` takes its size out of the total. */
  lemma {:induction false} TotalSizeRemove(b: seq<Entry>, q: nat)
    requires q < |b|
    ensures TotalSize(b) == TotalSize(b[..q] + b[q + 1..]) + b[q].sizeRaw
  {
    var front, x, back := b[..q], b[q], b[q + 1..];
    calc {
      TotalSize(b);
      { assert b == front + [x] + back; }
      TotalSize(front + [x] + back);
      { TotalSizeSplice(front, x, back); }
      TotalSize(front + back) + x.sizeRaw;
    }
  }

  lemma MultisetRemove(b: seq<Entry>, q: nat)
    requires q < |b|
    ensures multiset(b[..q] + b[q + 1..]) == multiset(b) - multiset{b[q]}
  {
    assert b == b[..q] + [b[q]] + b[q + 1..];
  }

  /** The total does not depend on the order of the entries. */
  lemma {:induction false} TotalSizePermutation(a: seq<Entry>, b: seq<Entry>)
    requires multiset(a) == multiset(b)
    ensures TotalSize(a) == TotalSize(b)
    decreases |a|
  {
    if a == [] {
      assert b == [];
    } else {
      var a', x := a[..|a| - 1], a[|a| - 1];
      assert a == a' + [x];
      assert x in multiset(b);
      var q :| 0 <= q < |b| && b[q] == x;
      TotalSizeRemove(b, q);
      MultisetRemove(b, q);
      assert multiset(a') == multiset(a) - multiset{x};
      TotalSizePermutation(a', b[..q] + b[q + 1..]);
    }
  }

  // ----- the result -----

  /** A component whose values never mention `data:` gets no entries and a
      zero total. */
  lemma {:induction false} NoMarkerNoEntries(props: seq<string>, formatBytes: nat -> string)
    requires forall k :: 0 <= k < |props| ==> !Contains(props[k], Marker)
    ensures Collect(props, formatBytes) == Success([])
  {
    if props != [] {
      NoMarkerNoEntries(props[..|props| - 1], formatBytes);
    }
  }

  lemma NoDataUriSummary(background: seq<string>, backgroundImage: seq<string>, fontFaces: FontFaces,
                         formatBytes: nat -> string)
    requires forall v :: v in Props(background, backgroundImage, fontFaces) ==> !Contains(v, Marker)
    ensures Analyze(background, backgroundImage, fontFaces, formatBytes)
            == Success(Summary(Total(0, formatBytes(0)), []))
  {
    NoMarkerNoEntries(Props(background, backgroundImage, fontFaces), formatBytes);
  }

  /** A successful call returns the pushed entries sorted by size, largest
      first, each size class in encounter order, with the order-independent
      total and every size formatted by the same routine. */
  lemma AnalyzeSummary(background: seq<string>, backgroundImage: seq<string>, fontFaces: FontFaces,
                       formatBytes: nat -> string)
    requires Analyze(background, backgroundImage, fontFaces, formatBytes).Success?
    ensures var props := Props(background, backgroundImage, fontFaces);
            var entries := Collect(props, formatBytes).value;
            var s := Analyze(background, backgroundImage, fontFaces, formatBytes).value;
            && |s.data| == |DataValues(props)|
            && NonIncreasing(s.data)
            && multiset(s.data) == multiset(entries)
            && (forall k :: WithSize(s.data, k) == WithSize(entries, k))
            && s.total.raw == TotalSize(entries)
            && s.total.fmt == formatBytes(s.total.raw)
            && (forall e :: e in s.data ==> e.size == formatBytes(e.sizeRaw))
  {
    var props := Props(background, backgroundImage, fontFaces);
    var entries := Collect(props, formatBytes).value;
    var s := Analyze(background, backgroundImage, fontFaces, formatBytes).value;
    CollectOnePerDataValue(props, formatBytes);
    SortBySizeSorted(entries);
    forall k
      ensures WithSize(s.data, k) == WithSize(entries, k)
    {
      SortBySizeStable(entries, k);
    }
    TotalSizePermutation(s.data, entries);
    forall e | e in s.data
      ensures e.size == formatBytes(e.sizeRaw)
    {
      assert e in multiset(entries);
      var j :| 0 <= j < |entries| && entries[j] == e;
      assert MakeEntry(DataValues(props)[j], formatBytes).Success?;
    }
  }

  /** With pairwise different sizes the entries come out strictly descending. */
  lemma DistinctSizesStrictlyDescending(background: seq<string>, backgroundImage: seq<string>,
                                        fontFaces: FontFaces, formatBytes: nat -> string)
    requires Analyze(background, backgroundImage, fontFaces, formatBytes).Success?
    requires var d := Analyze(background, backgroundImage, fontFaces, formatBytes).value.data;
             forall i, j :: 0 <= i < j < |d| ==> d[i].sizeRaw != d[j].sizeRaw
    ensures var d := Analyze(background, backgroundImage, fontFaces, formatBytes).value.data;
            forall i, j :: 0 <= i < j < |d| ==> d[i].sizeRaw > d[j].sizeRaw
  {
    AnalyzeSummary(background, backgroundImage, fontFaces, formatBytes);
  }

  /** The call throws exactly when some value mentioning `data:` cannot be
      made into an entry, and then with the first such value's error. */
  lemma AnalyzeThrows(background: seq<string>, backgroundImage: seq<string>, fontFaces: FontFaces,
                      formatBytes: nat -> string)
    ensures var dv := DataValues(Props(background, backgroundImage, fontFaces));
            Analyze(background, backgroundImage, fontFaces, formatBytes).Failure?
            <==> exists j :: 0 <= j < |dv| && MakeEntry(dv[j], formatBytes).Failure?
    ensures Analyze(background, backgroundImage, fontFaces, formatBytes).Failure? ==>
              exists j :: FirstFailureAt(DataValues(Props(background, backgroundImage, fontFaces)), j,
                                         formatBytes,
                                         Analyze(background, backgroundImage, fontFaces, formatBytes).error)
  {
    var props := Props(background, backgroundImage, fontFaces);
    CollectOnePerDataValue(props, formatBytes);
    if Collect(props, formatBytes).Failure? {
      CollectFirstError(props, formatBytes);
    }
  }
}
