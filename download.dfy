/** The download step: for every catalog row, in order, fetch the row's URL
    to its save path unless something already exists at that path.

    The file system is a map from path to what is stored there, and the
    network is seen only through the URLs a request was attempted for, in
    order.
    How a single transfer goes (success, or the point where it failed) is
    not decided by the program, so each row comes with a `Transfer` value
    that says what would happen if it were fetched. */
module Download {
  import opened Paths
  import opened Catalog

  datatype Option<T> = None | Some(value: T)

  /** What exists at a path: a directory, or a file holding the response
      body of `source`, either whole or cut off by a failed stream. */
  datatype Entry = Directory | File(source: string, complete: bool)

  /** How one call of `download_url` goes: the body is streamed to the end,
      the request itself raises, opening the save path raises, or the
      stream raises after the file was opened. */
  datatype Transfer = Completed | GetFailed | OpenFailed | StreamFailed
  {
    /** Whether the save path exists once the call has returned. */
    predicate LeavesFile()
    {
      Completed? || StreamFailed?
    }
  }

  /** The machine as the download step sees it: the existing paths and the
      URLs a request was attempted for so far (an attempt may fail before
      anything is sent). */
  datatype World = World(files: map<string, Entry>, transfers: seq<string>)

  /** The effect of `download_url(url, path)`: one request is attempted; the
      file is written only once the request succeeded and the path was
      opened, and it is complete only when the whole stream was written. No
      `Exception` reaches the caller in any case. */
  function Fetch(w: World, url: string, path: string, t: Transfer): (r: World)
    ensures r.transfers == w.transfers + [url]
    ensures forall p :: p != path ==> (p in r.files <==> p in w.files)
    ensures forall p :: p != path && p in w.files ==> r.files[p] == w.files[p]
    ensures path in r.files <==> path in w.files || t.LeavesFile()
    ensures t.LeavesFile() ==> r.files[path] == File(url, t == Completed)
    ensures !t.LeavesFile() ==> r.files == w.files
  {
    var files := match t
      case Completed => w.files[path := File(url, true)]
      case StreamFailed => w.files[path := File(url, false)]
      case GetFailed => w.files
      case OpenFailed => w.files;
    World(files, w.transfers + [url])
  }

  /** One iteration of the loop in `download`: at most one attempt, for the
      row's URL and only when its save path is absent; existing entries are
      kept as they are and the only path that can appear is the save path. */
  function Visit(w: World, row: Row, t: Transfer): (r: World)
    ensures r.transfers == w.transfers + (if SavePath(row.url) in w.files then [] else [row.url])
    ensures forall p :: p in w.files ==> p in r.files && r.files[p] == w.files[p]
    ensures r.files.Keys <= w.files.Keys + {SavePath(row.url)}
  {
    var path := SavePath(row.url);
    if path in w.files then w else Fetch(w, row.url, path, t)
  }

  /** The whole loop in `download`: the rows visited in order. It never
      removes or rewrites an existing path, and it only appends attempts,
      at most one per row. */
  function Run(w: World, rows: seq<Row>, ts: seq<Transfer>): (r: World)
    requires |ts| == |rows|
    ensures forall p :: p in w.files ==> p in r.files && r.files[p] == w.files[p]
    ensures w.transfers <= r.transfers
    ensures |r.transfers| <= |w.transfers| + |rows|
    decreases |rows|
  {
    if rows == [] then w else Run(Visit(w, rows[0], ts[0]), rows[1..], ts[1..])
  }

  /** The paths the rows would be saved to. */
  function SavePaths(rows: seq<Row>): set<string>
  {
    set r | r in rows :: SavePath(r.url)
  }

  /** The world after the first `k` rows of a run. */
  function Before(w: World, rows: seq<Row>, ts: seq<Transfer>, k: nat): World
    requires |ts| == |rows| && k <= |rows|
  {
    Run(w, rows[..k], ts[..k])
  }

  lemma {:induction false} RunAppend(w: World, a: seq<Row>, b: seq<Row>, ta: seq<Transfer>, tb: seq<Transfer>)
    requires |ta| == |a| && |tb| == |b|
    ensures Run(w, a + b, ta + tb) == Run(Run(w, a, ta), b, tb)
    decreases |a|
  {
    if a == [] {
      assert a + b == b && ta + tb == tb;
    } else {
      assert (a + b)[0] == a[0] && (ta + tb)[0] == ta[0];
      assert (a + b)[1..] == a[1..] + b && (ta + tb)[1..] == ta[1..] + tb;
      RunAppend(Visit(w, a[0], ta[0]), a[1..], b, ta[1..], tb);
    }
  }

  /** Running the rows from `k` to `m` takes the world after `k` rows to
      the world after `m` rows. */
  lemma PrefixExtends(w: World, rows: seq<Row>, ts: seq<Transfer>, k: nat, m: nat)
    requires |ts| == |rows| && k <= m <= |rows|
    ensures Before(w, rows, ts, m) == Run(Before(w, rows, ts, k), rows[k..m], ts[k..m])
  {
    assert rows[..m] == rows[..k] + rows[k..m];
    assert ts[..m] == ts[..k] + ts[k..m];
    RunAppend(w, rows[..k], rows[k..m], ts[..k], ts[k..m]);
  }

  /** Running a single row is visiting it. */
  lemma RunOne(w: World, row: Row, t: Transfer)
    ensures Run(w, [row], [t]) == Visit(w, row, t)
  {
    assert [row][1..] == [] && [t][1..] == [];
  }

  /** The world after `k + 1` rows is the world after `k` rows with row `k` visited. */
  lemma PrefixStep(w: World, rows: seq<Row>, ts: seq<Transfer>, k: nat)
    requires |ts| == |rows| && k < |rows|
    ensures Before(w, rows, ts, k + 1) == Visit(Before(w, rows, ts, k), rows[k], ts[k])
  {
    assert rows[..k + 1] == rows[..k] + [rows[k]];
    assert ts[..k + 1] == ts[..k] + [ts[k]];
    RunAppend(w, rows[..k], [rows[k]], ts[..k], [ts[k]]);
    RunOne(Before(w, rows, ts, k), rows[k], ts[k]);
  }

  /** Every path the loop creates is the save path of one of the rows. */
  lemma {:induction false} RunOnlyAddsSavePaths(w: World, rows: seq<Row>, ts: seq<Transfer>)
    requires |ts| == |rows|
    ensures Run(w, rows, ts).files.Keys <= w.files.Keys + SavePaths(rows)
    decreases |rows|
  {
    if rows != [] {
      var v := Visit(w, rows[0], ts[0]);
      RunOnlyAddsSavePaths(v, rows[1..], ts[1..]);
      assert v.files.Keys <= w.files.Keys + {SavePath(rows[0].url)};
      assert SavePath(rows[0].url) in SavePaths(rows) by {
        assert rows[0] in rows;
      }
      assert SavePaths(rows[1..]) <= SavePaths(rows) by {
        forall r | r in rows[1..] ensures r in rows {
        }
      }
    }
  }

  /** The skip rule: row `j` leaves the world as it is when its save path
      already exists at that point of the loop, and is fetched (one attempt
      for its URL) exactly when the path is absent. */
  lemma SkipRule(w: World, rows: seq<Row>, ts: seq<Transfer>, j: nat)
    requires |ts| == |rows| && j < |rows|
    ensures var b, a, path := Before(w, rows, ts, j), Before(w, rows, ts, j + 1), SavePath(rows[j].url);
      && (path in b.files ==> a == b)
      && (path !in b.files ==> a == Fetch(b, rows[j].url, path, ts[j]) && a.transfers == b.transfers + [rows[j].url])
  {
    PrefixStep(w, rows, ts, j);
  }

  /** An entry present after `k` rows is still there, unchanged, after `m`. */
  lemma StaysPresent(w: World, rows: seq<Row>, ts: seq<Transfer>, k: nat, m: nat, p: string)
    requires |ts| == |rows| && k <= m <= |rows|
    requires p in Before(w, rows, ts, k).files
    ensures p in Before(w, rows, ts, m).files
    ensures Before(w, rows, ts, m).files[p] == Before(w, rows, ts, k).files[p]
  {
    PrefixExtends(w, rows, ts, k, m);
  }

  /** Of two rows with the same save path, the later one makes no attempt
      when the earlier one's transfer left a file behind. */
  lemma DuplicateSkipped(w: World, rows: seq<Row>, ts: seq<Transfer>, i: nat, j: nat)
    requires |ts| == |rows| && i < j < |rows|
    requires SavePath(rows[i].url) == SavePath(rows[j].url)
    requires ts[i].LeavesFile()
    ensures Before(w, rows, ts, j + 1) == Before(w, rows, ts, j)
  {
    var path := SavePath(rows[i].url);
    var b := Before(w, rows, ts, i);
    PrefixStep(w, rows, ts, i);
    assert path in Before(w, rows, ts, i + 1).files by {
      assert path in Visit(b, rows[i], ts[i]).files;
    }
    StaysPresent(w, rows, ts, i + 1, j, path);
    SkipRule(w, rows, ts, j);
  }

  /** After the loop, the save path of every row whose transfer leaves a
      file exists. */
  lemma RunCovers(w: World, rows: seq<Row>, ts: seq<Transfer>)
    requires |ts| == |rows|
    ensures forall j :: 0 <= j < |rows| && ts[j].LeavesFile() ==> SavePath(rows[j].url) in Run(w, rows, ts).files
  {
    forall j | 0 <= j < |rows| && ts[j].LeavesFile()
      ensures SavePath(rows[j].url) in Run(w, rows, ts).files
    {
      PrefixStep(w, rows, ts, j);
      StaysPresent(w, rows, ts, j + 1, |rows|, SavePath(rows[j].url));
      assert rows[..|rows|] == rows && ts[..|ts|] == ts;
    }
  }

  /** When every save path already exists the loop changes nothing and
      makes no attempt. */
  lemma {:induction false} NothingToFetch(w: World, rows: seq<Row>, ts: seq<Transfer>)
    requires |ts| == |rows|
    requires SavePaths(rows) <= w.files.Keys
    ensures Run(w, rows, ts) == w
    decreases |rows|
  {
    if rows != [] {
      assert rows[0] in rows;
      assert SavePaths(rows[1..]) <= SavePaths(rows) by {
        forall r | r in rows[1..] ensures r in rows {
        }
      }
      NothingToFetch(w, rows[1..], ts[1..]);
    }
  }

  /** Running the loop again after a run in which no transfer failed before
      writing makes no attempt and changes nothing, whatever the second
      run's transfers would do. */
  lemma RerunFetchesNothing(w: World, rows: seq<Row>, ts: seq<Transfer>, again: seq<Transfer>)
    requires |ts| == |rows| && |again| == |rows|
    requires forall j :: 0 <= j < |rows| ==> ts[j].LeavesFile()
    ensures Run(Run(w, rows, ts), rows, again) == Run(w, rows, ts)
  {
    var after := Run(w, rows, ts);
    RunCovers(w, rows, ts);
    forall p | p in SavePaths(rows) ensures p in after.files {
      var r :| r in rows && p == SavePath(r.url);
      var j :| 0 <= j < |rows| && rows[j] == r;
    }
    NothingToFetch(after, rows, again);
  }

  /** A stream that fails after the file was opened leaves a partial file,
      and the loop never replaces it: the path exists from then on, so the
      row is skipped on every later visit. */
  lemma PartialFileSticks(w: World, rows: seq<Row>, ts: seq<Transfer>, j: nat)
    requires |ts| == |rows| && j < |rows|
    requires ts[j] == StreamFailed
    requires SavePath(rows[j].url) !in Before(w, rows, ts, j).files
    ensures SavePath(rows[j].url) in Run(w, rows, ts).files
    ensures Run(w, rows, ts).files[SavePath(rows[j].url)] == File(rows[j].url, false)
  {
    PrefixStep(w, rows, ts, j);
    StaysPresent(w, rows, ts, j + 1, |rows|, SavePath(rows[j].url));
    assert rows[..|rows|] == rows && ts[..|ts|] == ts;
  }

  /** A row whose URL ends in `/` is saved to the download directory itself,
      which exists, so it is never fetched. */
  lemma DirectoryUrlSkipped(w: World, row: Row, t: Transfer)
    requires DownloadDir in w.files
    requires |row.url| > 0 && row.url[|row.url| - 1] == '/'
    ensures Visit(w, row, t) == w
  {
    SavePathOfDirectoryUrl(row.url);
  }

  /** The machine the script runs on: the paths that exist, and the URLs
      a request was attempted for so far. */
  class Host {
    var files: map<string, Entry>
    ghost var transfers: seq<string>

    constructor (existing: map<string, Entry>)
      ensures files == existing && transfers == []
    {
      files := existing;
      transfers := [];
    }

    /** `download_url`: returns 0 after a complete transfer and nothing
        otherwise; an `Exception` is caught and never reaches the caller. */
    method DownloadUrl(url: string, savePath: string, t: Transfer) returns (status: Option<int>)
      modifies this
      ensures World(files, transfers) == Fetch(old(World(files, transfers)), url, savePath, t)
      ensures status == if t == Completed then Some(0) else None
    {
      transfers := transfers + [url];
      match t {
        case Completed =>
          files := files[savePath := File(url, true)];
          status := Some(0);
        case StreamFailed =>
          files := files[savePath := File(url, false)];
          status := None;
        case GetFailed =>
          status := None;
        case OpenFailed =>
          status := None;
      }
    }

    /** `download`: visits every row in order, fetching only rows whose save
        path does not exist yet. Like the source, it returns nothing. */
    method Download(rows: seq<Row>, ts: seq<Transfer>)
      requires |ts| == |rows|
      modifies this
      ensures World(files, transfers) == Run(old(World(files, transfers)), rows, ts)
    {
      for i := 0 to |rows|
        invariant Run(World(files, transfers), rows[i..], ts[i..]) == Run(old(World(files, transfers)), rows, ts)
      {
        var url := rows[i].url;
        var filename := FileName(url);
        var savePath := JoinPath(DownloadDir, filename);
        assert rows[i..][1..] == rows[i + 1..] && ts[i..][1..] == ts[i + 1..];
        if savePath !in files {
          var _ := DownloadUrl(url, savePath, ts[i]);
        }
      }
    }
  }
}
