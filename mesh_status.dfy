/** The MeshStatus widget: a table of mesh links that telnetMessage rebuilds from the
    text the mesh daemon sends, and a timer that asks for that text every second while
    the auto-update box is checked. */
module MeshStatusWidget {
  import opened Lines
  import opened LinkPattern

  /** Columns of the connection status table. */
  const SourceColumn := 0
  const QualityColumn := 1
  const DestColumn := 2
  const ColumnCount := 3

  /** Period of the auto-update timer, in milliseconds. */
  const AutoUpdatePeriod := 1000

  /** The text of each cell of a table row; "" stands for a cell without an item. */
  type Row = seq<string>

  const EmptyRow: Row := ["", "", ""]

  /** The row telnetMessage fills in for one link. */
  function LinkRow(l: Link): Row {
    [l.source, l.quality, l.dest]
  }

  function LinkRows(links: seq<Link>): seq<Row> {
    seq(|links|, k requires 0 <= k < |links| => LinkRow(links[k]))
  }

  /** The value of an option as a sequence of at most one element. */
  function Values<T>(o: Option<T>): seq<T> {
    match o
    case Some(v) => [v]
    case None => []
  }

  /** The values present in a sequence of options, in order. */
  function Present<T>(opts: seq<Option<T>>): seq<T>
    decreases |opts|
  {
    if opts == [] then [] else Present(opts[..|opts| - 1]) + Values(opts[|opts| - 1])
  }

  /** The positions of the present values, in order. */
  function PresentIndices<T>(opts: seq<Option<T>>): seq<nat>
    decreases |opts|
  {
    if opts == [] then []
    else PresentIndices(opts[..|opts| - 1]) + (if opts[|opts| - 1].Some? then [|opts| - 1] else [])
  }

  /** What the pattern makes of each line. */
  function CaptureEach(lines: seq<string>): seq<Option<Link>> {
    seq(|lines|, i requires 0 <= i < |lines| => Capture(lines[i]))
  }

  /** The links of the accepted lines, in line order. */
  function AcceptedLinks(lines: seq<string>): seq<Link> {
    Present(CaptureEach(lines))
  }

  /** One more option adds its value, if any, at the end. */
  lemma PresentStep<T>(opts: seq<Option<T>>, k: nat)
    requires k < |opts|
    ensures Present(opts[..k + 1]) == Present(opts[..k]) + Values(opts[k])
  {
    assert opts[..k + 1][..k] == opts[..k];
  }

  /** One more line adds the link of that line, if the pattern accepts it, at the end. */
  lemma AcceptedLinksStep(lines: seq<string>, k: nat)
    requires k < |lines|
    ensures AcceptedLinks(lines[..k + 1]) == AcceptedLinks(lines[..k]) + Values(Capture(lines[k]))
  {
    var caps := CaptureEach(lines);
    assert CaptureEach(lines[..k]) == caps[..k];
    assert CaptureEach(lines[..k + 1]) == caps[..k + 1];
    PresentStep(caps, k);
  }

  /** The values of two blocks are the values of the first block followed by those of
      the second. */
  lemma {:induction false} PresentAppend<T>(a: seq<Option<T>>, b: seq<Option<T>>)
    ensures Present(a + b) == Present(a) + Present(b)
    decreases |b|
  {
    if b == [] {
      assert a + b == a;
    } else {
      var b' := b[..|b| - 1];
      assert (a + b)[..|a + b| - 1] == a + b';
      PresentAppend(a, b');
    }
  }

  /** The links of two blocks of lines are the links of the first block followed by
      those of the second. */
  lemma AcceptedLinksAppend(a: seq<string>, b: seq<string>)
    ensures AcceptedLinks(a + b) == AcceptedLinks(a) + AcceptedLinks(b)
  {
    assert CaptureEach(a + b) == CaptureEach(a) + CaptureEach(b);
    PresentAppend(CaptureEach(a), CaptureEach(b));
  }

  /** Each present option contributes exactly one value and each absent one none: the
      r-th value sits at the r-th listed position. */
  lemma {:induction false} PresentAtIndices<T>(opts: seq<Option<T>>)
    ensures var idx := PresentIndices(opts); var vals := Present(opts);
      && |idx| == |vals| <= |opts|
      && forall r :: 0 <= r < |idx| ==> idx[r] < |opts| && opts[idx[r]] == Some(vals[r])
    decreases |opts|
  {
    if opts != [] {
      var n := |opts| - 1;
      var init := opts[..n];
      PresentAtIndices(init);
      var idx0, vals0 := PresentIndices(init), Present(init);
      var idx, vals := PresentIndices(opts), Present(opts);
      forall r | 0 <= r < |idx| ensures idx[r] < |opts| && opts[idx[r]] == Some(vals[r]) {
        if r < |idx0| {
          assert idx[r] == idx0[r] && vals[r] == vals0[r];
          assert init[idx0[r]] == opts[idx0[r]];
        } else {
          assert idx[r] == n;
        }
      }
    }
  }

  /** The positions are listed in increasing order. */
  lemma {:induction false} PresentIndicesIncrease<T>(opts: seq<Option<T>>)
    ensures forall r :: 0 <= r < |PresentIndices(opts)| ==> PresentIndices(opts)[r] < |opts|
    ensures forall r, r' :: 0 <= r < r' < |PresentIndices(opts)| ==> PresentIndices(opts)[r] < PresentIndices(opts)[r']
    decreases |opts|
  {
    if opts != [] {
      var n := |opts| - 1;
      var init := opts[..n];
      PresentIndicesIncrease(init);
      var idx0 := PresentIndices(init);
      var idx := PresentIndices(opts);
      assert idx == idx0 + (if opts[n].Some? then [n] else []);
      assert forall r :: 0 <= r < |idx0| ==> idx0[r] < n;
    }
  }

  /** Every present option is listed. */
  lemma {:induction false} PresentIndicesComplete<T>(opts: seq<Option<T>>)
    ensures forall i :: 0 <= i < |opts| && opts[i].Some? ==> i in PresentIndices(opts)
    decreases |opts|
  {
    if opts != [] {
      var n := |opts| - 1;
      var init := opts[..n];
      PresentIndicesComplete(init);
      forall i | 0 <= i < n && opts[i].Some? ensures i in PresentIndices(opts) {
        assert init[i] == opts[i];
      }
    }
  }

  /** Every accepted line gives one link, the links appear in line order, and no other
      line gives one. */
  lemma AcceptedLinksInLineOrder(lines: seq<string>)
    ensures var idx := PresentIndices(CaptureEach(lines)); var links := AcceptedLinks(lines);
      && |idx| == |links| <= |lines|
      && (forall r :: 0 <= r < |idx| ==> idx[r] < |lines| && Capture(lines[idx[r]]) == Some(links[r]))
      && (forall r, r' :: 0 <= r < r' < |idx| ==> idx[r] < idx[r'])
      && (forall i :: 0 <= i < |lines| && Capture(lines[i]).Some? ==> i in idx)
  {
    var caps := CaptureEach(lines);
    PresentAtIndices(caps);
    PresentIndicesIncrease(caps);
    PresentIndicesComplete(caps);
  }

  /** Nothing is present exactly when every option is None. */
  lemma PresentEmpty<T>(opts: seq<Option<T>>)
    ensures Present(opts) == [] <==> forall i :: 0 <= i < |opts| ==> opts[i].None?
  {
    PresentAtIndices(opts);
    PresentIndicesComplete(opts);
    var idx := PresentIndices(opts);
    if idx != [] {
      assert opts[idx[0]].Some?;
    }
  }

  /** The table gets no new row exactly when no line is accepted. */
  lemma NoAcceptedLines(lines: seq<string>)
    ensures AcceptedLinks(lines) == [] <==> forall i :: 0 <= i < |lines| ==> Capture(lines[i]).None?
  {
    var caps := CaptureEach(lines);
    PresentEmpty(caps);
    assert forall i :: 0 <= i < |lines| ==> caps[i] == Capture(lines[i]);
  }

  /** The QTableWidget that shows the links. Out-of-range row or column arguments are
      ignored, as Qt does. */
  class Table {
    var rows: seq<Row>

    ghost predicate Valid()
      reads this
    {
      forall r :: 0 <= r < |rows| ==> |rows[r]| == ColumnCount
    }

    constructor ()
      ensures Valid() && rows == []
    {
      rows := [];
    }

    function RowCount(): nat
      reads this
    {
      |rows|
    }

    method RemoveRow(row: int)
      requires Valid()
      modifies this
      ensures Valid()
      ensures rows == if 0 <= row < |old(rows)| then old(rows)[..row] + old(rows)[row + 1..] else old(rows)
    {
      if 0 <= row < |rows| {
        rows := rows[..row] + rows[row + 1..];
      }
    }

    /** Inserts an empty row so that it gets index row; row may be RowCount(). */
    method InsertRow(row: int)
      requires Valid()
      modifies this
      ensures Valid()
      ensures rows == if 0 <= row <= |old(rows)| then old(rows)[..row] + [EmptyRow] + old(rows)[row..] else old(rows)
    {
      if 0 <= row <= |rows| {
        rows := rows[..row] + [EmptyRow] + rows[row..];
      }
    }

    method SetItem(row: int, column: int, text: string)
      requires Valid()
      modifies this
      ensures Valid()
      ensures rows == if 0 <= row < |old(rows)| && 0 <= column < ColumnCount
                      then old(rows)[row := old(rows)[row][column := text]] else old(rows)
    {
      if 0 <= row < |rows| && 0 <= column < ColumnCount {
        rows := rows[row := rows[row][column := text]];
      }
    }
  }

  /** The QTimer that drives automatic updates: whether it runs, and its period. */
  class Timer {
    var active: bool
    var interval: int

    constructor ()
      ensures !active && interval == 0
    {
      active, interval := false, 0;
    }

    /** Starts or restarts the timer with the given period. */
    method Start(msec: int)
      modifies this
      ensures active && interval == msec
    {
      active, interval := true, msec;
    }

    method Stop()
      modifies this
      ensures !active && interval == old(interval)
    {
      active := false;
    }
  }

  class MeshStatus {
    const table: Table
    const timer: Timer

    ghost predicate Valid()
      reads this, table
    {
      table.Valid()
    }

    /** The timer starts running only when the auto-update box starts out checked
        (check state greater than 0). */
    constructor (initialCheckState: int)
      ensures Valid() && fresh(table) && fresh(timer)
      ensures table.rows == []
      ensures timer.active == (initialCheckState > 0)
      ensures timer.interval == if initialCheckState > 0 then AutoUpdatePeriod else 0
    {
      table := new Table();
      timer := new Timer();
      new;
      if initialCheckState > 0 {
        timer.Start(AutoUpdatePeriod);
      }
    }

    /** Unchecking the box (state 0) stops the timer; any other state starts it with
        the one-second period. */
    method AutoUpdate(state: int)
      modifies timer
      ensures timer.active == (state != 0)
      ensures timer.interval == if state == 0 then old(timer.interval) else AutoUpdatePeriod
    {
      if state == 0 {
        timer.Stop();
      } else {
        timer.Start(AutoUpdatePeriod);
      }
    }

    /** The loop meant to delete every row. Each pass removes row 0 while the bound
        RowCount() shrinks and i grows, so it stops after (n + 1) / 2 passes and leaves
        the last n / 2 rows in their order; only a table of at most one row ends empty. */
    method ClearRows() returns (ghost passes: nat)
      requires Valid()
      modifies table
      ensures Valid()
      ensures passes == (|old(table.rows)| + 1) / 2
      ensures table.rows == old(table.rows)[passes..]
      ensures |table.rows| == |old(table.rows)| / 2
      ensures table.rows == [] <==> |old(table.rows)| <= 1
    {
      var i := 0;
      while i < table.RowCount()
        invariant Valid()
        invariant 0 <= i && 2 * i <= |old(table.rows)| + 1
        invariant table.rows == old(table.rows)[i..]
        decreases table.RowCount() - i
      {
        table.RemoveRow(0);
        i := i + 1;
      }
      passes := i;
    }

    /** The loop as its comment describes it: removes rows until none is left. */
    method RemoveAllRows()
      requires Valid()
      modifies table
      ensures Valid()
      ensures table.rows == []
    {
      while table.RowCount() > 0
        invariant Valid()
        decreases table.RowCount()
      {
        table.RemoveRow(0);
      }
    }

    /** The body of the loop for an accepted line: a new last row whose cells are the
        source, the quality and the destination. */
    method AppendLink(l: Link)
      requires Valid()
      modifies table
      ensures Valid()
      ensures table.rows == old(table.rows) + [LinkRow(l)]
    {
      ghost var before := table.rows;
      table.InsertRow(table.RowCount());
      var last := table.RowCount() - 1;
      assert last == |before| && table.rows == before + [EmptyRow];
      table.SetItem(last, SourceColumn, l.source);
      assert EmptyRow[SourceColumn := l.source] == [l.source, "", ""];
      assert table.rows == before + [[l.source, "", ""]];
      table.SetItem(last, DestColumn, l.dest);
      assert [l.source, "", ""][DestColumn := l.dest] == [l.source, "", l.dest];
      assert table.rows == before + [[l.source, "", l.dest]];
      table.SetItem(last, QualityColumn, l.quality);
      assert [l.source, "", l.dest][QualityColumn := l.quality] == LinkRow(l);
    }

    /** One pass of the loop over the lines: a line the pattern accepts gets a new last
        row; any other line changes nothing. */
    method AppendIfAccepted(line: string)
      requires Valid()
      modifies table
      ensures Valid()
      ensures table.rows == old(table.rows) + LinkRows(Values(Capture(line)))
    {
      var captured := Capture(line);
      if captured.Some? {
        AppendLink(captured.value);
      }
    }

    /** The loop over the lines: one new last row per accepted line, in line order. */
    method AppendAcceptedLines(connectionList: seq<string>)
      requires Valid()
      modifies table
      ensures Valid()
      ensures table.rows == old(table.rows) + LinkRows(AcceptedLinks(connectionList))
    {
      for k := 0 to |connectionList|
        invariant Valid()
        invariant table.rows == old(table.rows) + LinkRows(AcceptedLinks(connectionList[..k]))
      {
        AppendIfAccepted(connectionList[k]);
        AcceptedLinksStep(connectionList, k);
        LinkRowsAppend(AcceptedLinks(connectionList[..k]), Values(Capture(connectionList[k])));
      }
      assert connectionList[..|connectionList|] == connectionList;
    }

    /** Rebuilds the table from a message: runs the clearing loop, then appends one row
        per accepted line, in line order, with the source in column 0, the quality in
        column 1 and the destination in column 2. */
    method TelnetMessage(msg: string)
      requires Valid()
      modifies table
      ensures Valid()
      ensures table.rows
           == old(table.rows)[(|old(table.rows)| + 1) / 2..] + LinkRows(AcceptedLinks(Split(msg, '\n')))
    {
      var connectionList := Split(msg, '\n');
      ghost var passes := ClearRows();
      AppendAcceptedLines(connectionList);
    }

    /** telnetMessage with the clearing loop replaced by RemoveAllRows: the table then
        shows exactly the links of the message, one row per accepted line. */
    method TelnetMessageCorrected(msg: string)
      requires Valid()
      modifies table
      ensures Valid()
      ensures table.rows == LinkRows(AcceptedLinks(Split(msg, '\n')))
    {
      var connectionList := Split(msg, '\n');
      RemoveAllRows();
      AppendAcceptedLines(connectionList);
    }
  }

  lemma LinkRowsAppend(a: seq<Link>, b: seq<Link>)
    ensures LinkRows(a + b) == LinkRows(a) + LinkRows(b)
  {
  }

  /** Clearing a table of two rows with the loop as written leaves one of them. */
  method ClearingTwoRowsLeavesOne() returns (remaining: nat)
    ensures remaining == 1
  {
    var widget := new MeshStatus(0);
    widget.table.InsertRow(0);
    widget.table.InsertRow(0);
    ghost var passes := widget.ClearRows();
    remaining := widget.table.RowCount();
  }
}
