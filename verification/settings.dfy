/** The settings page (web/src/app/settings/page.tsx): the tab chosen from
    the query string, the sortable table of processed report files, and the
    guarded two-step deletion of a file.  Parsing a timestamp with
    `new Date(..).getTime()` is a parameter `time`. */
module Settings {
  import opened Wrappers
  import opened Seqs
  import Sorting

  datatype Tab = Tahliller | Kilo | Tansiyon

  function TabKey(t: Tab): string {
    match t
    case Tahliller => "tahliller"
    case Kilo => "kilo"
    case Tansiyon => "tansiyon"
  }

  /** The `tab` query parameter names a tab only when it is one of the three
      keys; anything else, or no parameter, shows the reports tab. */
  function ActiveTab(param: Option<string>): (r: Tab)
    ensures param.Some? && param.value in {"tahliller", "kilo", "tansiyon"} ==> TabKey(r) == param.value
    ensures !(param.Some? && param.value in {"tahliller", "kilo", "tansiyon"}) ==> r == Tahliller
  {
    if param == Some("kilo") then Kilo
    else if param == Some("tansiyon") then Tansiyon
    else Tahliller
  }

  /** Linking to a tab by its key opens that tab. */
  lemma ActiveTabOfKey(t: Tab)
    ensures ActiveTab(Some(TabKey(t))) == t
  {
  }

  /** A row of the files table; `sampleDate` is nullable. */
  datatype ProcessedFile = ProcessedFile(id: string, fileName: string, createdAt: string, sampleDate: Option<string>, metricCount: nat)

  datatype SortColumn = SampleDate | CreatedAt
  datatype SortDirection = Asc | Desc

  function ColumnValue(f: ProcessedFile, c: SortColumn): Option<string> {
    match c
    case SampleDate => f.sampleDate
    case CreatedAt => Some(f.createdAt)
  }

  /** JavaScript truthiness of a nullable string: present and non-empty. */
  predicate Truthy(v: Option<string>) {
    v.Some? && v.value != ""
  }

  predicate Dated(f: ProcessedFile, c: SortColumn) {
    Truthy(ColumnValue(f, c))
  }

  /** The comparator of `sortedFiles`: files without a value in the sort
      column go last whatever the direction, the others by timestamp. */
  function CompareFiles(a: ProcessedFile, b: ProcessedFile, c: SortColumn, d: SortDirection, time: string -> int): int {
    var av := ColumnValue(a, c);
    var bv := ColumnValue(b, c);
    if !Truthy(av) && !Truthy(bv) then 0
    else if !Truthy(av) then 1
    else if !Truthy(bv) then -1
    else
      var comparison := time(av.value) - time(bv.value);
      if d == Asc then comparison else -comparison
  }

  /** An undated file sorts after a dated one in both directions, and two
      undated files are equal. */
  lemma UndatedCompareLast(a: ProcessedFile, b: ProcessedFile, c: SortColumn, d: SortDirection, time: string -> int)
    ensures !Dated(a, c) && Dated(b, c) ==> CompareFiles(a, b, c, d, time) > 0 && CompareFiles(b, a, c, d, time) < 0
    ensures !Dated(a, c) && !Dated(b, c) ==> CompareFiles(a, b, c, d, time) == 0
  {
  }

  /** Between dated files, descending order is ascending order reversed. */
  lemma DescendingIsReversed(a: ProcessedFile, b: ProcessedFile, c: SortColumn, time: string -> int)
    requires Dated(a, c) && Dated(b, c)
    ensures CompareFiles(a, b, c, Desc, time) == -CompareFiles(a, b, c, Asc, time)
    ensures CompareFiles(a, b, c, Asc, time) == CompareFiles(b, a, c, Desc, time)
  {
  }

  function FileLe(c: SortColumn, d: SortDirection, time: string -> int): (ProcessedFile, ProcessedFile) -> bool {
    (a: ProcessedFile, b: ProcessedFile) => CompareFiles(a, b, c, d, time) <= 0
  }

  lemma FileLeIsTotalPreorder(c: SortColumn, d: SortDirection, time: string -> int)
    ensures Sorting.TotalPreorder(FileLe(c, d, time))
  {
  }

  /** `sortedFiles`: a stable sort by the comparator; every dated file comes
      before every undated one. */
  function SortedFiles(files: seq<ProcessedFile>, c: SortColumn, d: SortDirection, time: string -> int): (r: seq<ProcessedFile>)
    ensures multiset(r) == multiset(files)
    ensures Sorting.SortedBy(r, FileLe(c, d, time))
    ensures forall i, j | 0 <= i < j < |r| :: !(Dated(r[j], c) && !Dated(r[i], c))
  {
    FileLeIsTotalPreorder(c, d, time);
    var r := Sorting.Sort(files, FileLe(c, d, time));
    assert forall i, j | 0 <= i < j < |r| :: !(Dated(r[j], c) && !Dated(r[i], c)) by {
      forall i, j | 0 <= i < j < |r| ensures !(Dated(r[j], c) && !Dated(r[i], c)) {
        assert FileLe(c, d, time)(r[i], r[j]);
      }
    }
    r
  }

  /** Sorted descending, the dated files run from newest to oldest. */
  lemma SortedDescendingReversesDated(files: seq<ProcessedFile>, c: SortColumn, time: string -> int)
    ensures var down := SortedFiles(files, c, Desc, time);
      forall i, j | 0 <= i < j < |down| && Dated(down[i], c) && Dated(down[j], c) ::
        time(ColumnValue(down[j], c).value) <= time(ColumnValue(down[i], c).value)
  {
    var down := SortedFiles(files, c, Desc, time);
    forall i, j | 0 <= i < j < |down| && Dated(down[i], c) && Dated(down[j], c)
      ensures time(ColumnValue(down[j], c).value) <= time(ColumnValue(down[i], c).value)
    {
      assert FileLe(c, Desc, time)(down[i], down[j]);
    }
  }

  datatype SortState = SortState(column: SortColumn, direction: SortDirection)

  function Flip(d: SortDirection): SortDirection {
    if d == Asc then Desc else Asc
  }

  /** `handleSort`: clicking the current column flips its direction, another
      column is selected newest first. */
  function HandleSort(st: SortState, c: SortColumn): (r: SortState)
    ensures r.column == c
    ensures c == st.column ==> r.direction != st.direction
    ensures c != st.column ==> r.direction == Desc
  {
    if st.column == c then SortState(c, Flip(st.direction)) else SortState(c, Desc)
  }

  /** Clicking a column twice returns to the state before when it was the
      current column, and to ascending order when it was not. */
  lemma HandleSortTwice(st: SortState, c: SortColumn)
    ensures c == st.column ==> HandleSort(HandleSort(st, c), c) == st
    ensures c != st.column ==> HandleSort(HandleSort(st, c), c) == SortState(c, Asc)
  {
  }

  /** The files list with the pending and in-flight deletion. */
  datatype DeleteState = DeleteState(files: seq<ProcessedFile>, deletingId: Option<string>, deleting: bool)

  /** Every file but the one with `id`, in order. */
  function RemoveFile(files: seq<ProcessedFile>, id: string): (r: seq<ProcessedFile>)
    ensures forall f :: f in r <==> f in files && f.id != id
  {
    Filter(files, (f: ProcessedFile) => f.id != id)
  }

  /** Removal works file by file: it maps a single file to itself or to
      nothing, and distributes over concatenation, so the files kept stay in
      their order. */
  lemma RemoveFileHomomorphism(a: seq<ProcessedFile>, b: seq<ProcessedFile>, f: ProcessedFile, id: string)
    ensures RemoveFile(a + b, id) == RemoveFile(a, id) + RemoveFile(b, id)
    ensures RemoveFile([f], id) == if f.id == id then [] else [f]
  {
    FilterAppend(a, b, (f: ProcessedFile) => f.id != id);
    assert [f][1..] == [];
  }

  /** `requestDelete`: ignored while a deletion is in flight. */
  function RequestDelete(st: DeleteState, id: string): (r: DeleteState)
    ensures st.deleting ==> r == st
    ensures !st.deleting ==> r.deletingId == Some(id) && r.files == st.files && !r.deleting
  {
    if st.deleting then st else st.(deletingId := Some(id))
  }

  /** The start of `confirmDelete`: the id of the DELETE request sent, or
      nothing while another deletion is in flight. */
  function ConfirmDelete(st: DeleteState, id: string): (r: (DeleteState, Option<string>))
    ensures st.deleting ==> r == (st, None)
    ensures !st.deleting ==> r.1 == Some(id) && r.0.deleting && r.0.files == st.files
  {
    if st.deleting then (st, None) else (st.(deleting := true), Some(id))
  }

  /** The end of `confirmDelete` once the response arrives: on success the
      file leaves the list and the dialog closes; either way the flag drops. */
  function DeleteSettled(st: DeleteState, id: string, ok: bool): (r: DeleteState)
    ensures !r.deleting
    ensures ok ==> r.files == RemoveFile(st.files, id) && r.deletingId.None?
    ensures !ok ==> r.files == st.files && r.deletingId == st.deletingId
  {
    if ok then DeleteState(RemoveFile(st.files, id), None, false)
    else st.(deleting := false)
  }

  /** While a deletion is in flight neither a new request nor a second
      confirmation changes anything or sends anything. */
  lemma InFlightIgnoresClicks(st: DeleteState, id: string, other: string)
    requires !st.deleting
    ensures var busy := ConfirmDelete(st, id).0;
      && RequestDelete(busy, other) == busy
      && ConfirmDelete(busy, other) == (busy, None)
  {
  }

  /** A successful deletion removes exactly the files with that id. */
  lemma DeleteRemovesExactly(st: DeleteState, id: string)
    requires !st.deleting
    ensures var r := DeleteSettled(ConfirmDelete(st, id).0, id, true);
      && (forall f | f in st.files && f.id != id :: f in r.files)
      && (forall f | f in r.files :: f.id != id)
      && |r.files| <= |st.files|
  {
  }
}
