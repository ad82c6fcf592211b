# MeshStatus: mesh link table and auto-update timer

This project models the MeshStatus widget of the ground station's user interface. The
widget shows the links of a wireless mesh in a table with three columns: source,
quality and destination. Its text comes from a mesh daemon over telnet. One link is
reported per line, in the form

    "82.130.102.52" -> "82.130.103.111"[label="1.094"];

`telnetMessage` rebuilds the table from each message in three steps:

1. It splits the message into lines.
2. It tries to delete all rows.
3. It appends one row per line that a fixed regular expression matches from index 0.

A check box drives a one-second timer that asks the daemon for a new message.

The model has three modules:

- `Lines` (`lines.dfy`) is `QString::split` on one character, with empty pieces kept.
- `LinkPattern` (`link_pattern.dfy`) models the pattern of a link line.
  - The dotted-quad and float grammars are validator predicates.
  - A match is described independently by `IsMatch`, over the group boundaries.
  - `Locate` and `Capture` form a hand-written recogniser that yields the three captured texts.
  - Lemmas prove that the two descriptions agree, and state what the captures are.
- `MeshStatusWidget` (`mesh_status.dfy`) holds the imperative part as classes:
  - the table (`Table`, a sequence of three-cell rows);
  - the timer (`Timer`, a running flag and a period);
  - the widget (`MeshStatus`): the clearing loop, the loop over the lines, `autoUpdate` and the constructor's timer start.

## Model

| member | source | states |
|---|---|---|
| Lines.JoinSplit | src/ui/MeshStatus.cc:79 | splitting the message on `'\n'` loses nothing: joining the pieces with `'\n'` gives the message back |
| Lines.SplitPartsHaveNoSeparator | src/ui/MeshStatus.cc:79 | no line of the split contains a newline |
| Lines.SplitCount | src/ui/MeshStatus.cc:79 | the split has one line more than the message has newlines (empty lines are kept, so "" is one empty line) |
| Lines.SplitJoin | src/ui/MeshStatus.cc:79 | newline-free lines joined with `'\n'` split back into exactly those lines |
| LinkPattern.DigitRunEnd | src/ui/MeshStatus.cc:83 | the end of a maximal run of digits: everything before it is a digit and the character at it is not |
| LinkPattern.OctetIsByte | src/ui/MeshStatus.cc:83 | a string fits the octet grammar `25[0-5]\|2[0-4][0-9]\|[01]?[0-9][0-9]?` exactly when it is one to three digits with a value of at most 255 |
| LinkPattern.QuadEndIsQuadAt | src/ui/MeshStatus.cc:83-85 | the dotted-quad recogniser returns end e exactly when the text from i to e is four octets joined by dots with no digit after it (the `(?![\d])` lookahead) |
| LinkPattern.QuadAtUnique | src/ui/MeshStatus.cc:83-85 | at a given position at most one dotted quad with the no-digit lookahead can start |
| LinkPattern.FloatEndIsFloatAt | src/ui/MeshStatus.cc:87 | the float recogniser returns end e exactly when the text from k to e matches `[+-]?\d*\.\d+` and the next character is not one of `-+0-9.` |
| LinkPattern.CaptureIffMatch | src/ui/MeshStatus.cc:101-102 | a line yields a capture exactly when the pattern matches it starting at index 0 |
| LinkPattern.Capture | src/ui/MeshStatus.cc:102-106 | a line that yields a capture starts with `"`; any other line yields no row |
| LinkPattern.LocateSound | src/ui/MeshStatus.cc:82-92 | the group boundaries the recogniser picks form a match of the whole pattern |
| LinkPattern.LocateLongest | src/ui/MeshStatus.cc:84-86 | every match is found; the chosen one has the same source, ends its float group no earlier (the longest match), and among the matches with that end starts its destination quad no later, then its float group no later |
| LinkPattern.LaterTailWins | src/ui/MeshStatus.cc:86-90 | after a formatted link, a second float group followed by `"];` ends the longest match, so the quality capture is the second float while source and destination stay those of the link |
| LinkPattern.CapturedSource | src/ui/MeshStatus.cc:104 | the source capture is the unique dotted quad starting at index 1, and the character after it is not a digit |
| LinkPattern.DottedQuadOctetsAreBytes | src/ui/MeshStatus.cc:83 | each of the four octets of a captured quad is one to three digits with a value of at most 255 |
| LinkPattern.CapturedDest | src/ui/MeshStatus.cc:105 | the destination capture is a dotted quad not followed by a digit, starting at or after the end of the source |
| LinkPattern.CapturedQuality | src/ui/MeshStatus.cc:106 | the quality capture matches the float grammar, starts at or after the end of the destination, and is followed by `"];` |
| LinkPattern.FormatLinkRoundTrip | src/ui/MeshStatus.cc:81 | a line written in the daemon's form from a valid source, destination and quality captures exactly those three texts |
| LinkPattern.JoinedOctetsAreQuad | src/ui/MeshStatus.cc:83 | four octets joined by dots form a dotted quad |
| LinkPattern.SampleLineCapture | src/ui/MeshStatus.cc:81 | the line `"10.0.0.1" -> "10.0.0.2"[label="0.987"];` yields the link (10.0.0.1, 10.0.0.2, 0.987) |
| MeshStatusWidget.AcceptedLinksInLineOrder | src/ui/MeshStatus.cc:101-106 | each accepted line gives exactly one link, the r-th link is the capture of the r-th accepted line, accepted lines appear in increasing order, and no other line gives a link |
| MeshStatusWidget.AcceptedLinksAppend | src/ui/MeshStatus.cc:101-115 | the links of two blocks of lines are those of the first block followed by those of the second |
| MeshStatusWidget.NoAcceptedLines | src/ui/MeshStatus.cc:101-115 | no link is appended exactly when no line is accepted |
| MeshStatusWidget.Table.RemoveRow | src/ui/MeshStatus.cc:97 | an in-range row is removed and the others keep their order; an out-of-range index changes nothing |
| MeshStatusWidget.Table.InsertRow | src/ui/MeshStatus.cc:107 | an empty row is inserted at the index (which may equal the row count); an out-of-range index changes nothing |
| MeshStatusWidget.Table.SetItem | src/ui/MeshStatus.cc:109-113 | the text of one in-range cell is replaced and nothing else changes |
| MeshStatusWidget.Timer.Start | src/ui/MeshStatus.cc:73 | the timer runs with the given period |
| MeshStatusWidget.Timer.Stop | src/ui/MeshStatus.cc:71 | the timer no longer runs and keeps its period |
| MeshStatusWidget.MeshStatus.constructor | src/ui/MeshStatus.cc:52-56 | the table is empty, and the timer runs, with period 1000 ms, exactly when the initial check state is greater than 0 |
| MeshStatusWidget.MeshStatus.AutoUpdate | src/ui/MeshStatus.cc:68-75 | state 0 stops the timer; any other state starts it with period 1000 ms |
| MeshStatusWidget.MeshStatus.ClearRows | src/ui/MeshStatus.cc:94-98 | starting from n rows, the loop runs (n + 1) / 2 times, always removing row 0; the last n / 2 rows remain in their order; the table ends empty only when n <= 1 |
| MeshStatusWidget.MeshStatus.AppendLink | src/ui/MeshStatus.cc:107-113 | one new last row, with the source in column 0, the quality in column 1 and the destination in column 2 |
| MeshStatusWidget.MeshStatus.AppendIfAccepted | src/ui/MeshStatus.cc:102-114 | an accepted line adds its link's row at the end; any other line changes nothing |
| MeshStatusWidget.MeshStatus.AppendAcceptedLines | src/ui/MeshStatus.cc:101-115 | after the loop the table is the old rows, unchanged, followed by one row per accepted line, in line order |
| MeshStatusWidget.MeshStatus.TelnetMessage | src/ui/MeshStatus.cc:77-120 | the new table is the rows the clearing loop leaves, unchanged, followed by the rows of the accepted lines of the split message, in line order |
| MeshStatusWidget.MeshStatus.RemoveAllRows | src/ui/MeshStatus.cc:94 | the corrected clearing loop: the table ends empty |
| MeshStatusWidget.MeshStatus.TelnetMessageCorrected | src/ui/MeshStatus.cc:77-120 | with the corrected clearing loop, the table shows exactly the rows of the accepted lines of the message |
| MeshStatusWidget.ClearingTwoRowsLeavesOne | src/ui/MeshStatus.cc:95-98 | clearing a two-row table with the loop as written leaves one row |

## Left out

- `update()` and the telnet connection to `localhost:2004` are not modelled. Nor is the delivery of `message` signals. These are network I/O; the received text is the `msg` parameter of `TelnetMessage`.
- Widget setup, signal and slot connections, `QTableWidgetItem` allocation and the destructor are not modelled. They are UI wiring and memory ownership. A cell is represented by its text.
- The Qt table and timer classes are not part of this model. `Table` follows their documented behaviour: out-of-range `removeRow`, `insertRow` and `setItem` calls are ignored. `Timer` is a running flag and a period; real ticks and timing are not modelled.
- MeshStatusWidget.MeshStatus.constructor: the form file that sets up the table is not part of this model. The table is taken to start with no rows, and the check box's initial state is a parameter.
- LinkPattern.Capture: the general QRegExp engine is not modelled. The model follows its rule for the match itself: the longest match, so the greedy fillers reach the last float group that `"];` follows. Among the matches of that length, the capture is assumed to take the earliest-starting destination quad, then the earliest-starting float. This is the engine's preference for captures that start early. A Perl-style greedy backtracking engine would instead take the latest possible starts. For `"10.0.0.1" -> "10.0.0.2"[label="0.987"];` that gives the destination `0.0.0.2` and the quality `.987`.
- LinkPattern.CapturedDest, LinkPattern.CapturedQuality: the source capture is forced (QuadAtUnique). These two lemmas state only grammar and position facts, which hold for every match (LocateSound, LocateLongest). They are therefore independent of the capture choice above.
- LinkPattern.IsDigit: `\d` in the lookaheads `(?![\d])` (MeshStatus.cc:83, 85) and in the float group `\d*\.\d+` (MeshStatus.cc:87) is taken as the ASCII digits `0`-`9`; QRegExp's `\d` also matches the other Unicode decimal digits. The octets' `[0-9]` and the float lookahead `(?![-+0-9\.])` are ASCII in both. The Unicode digit table depends on the Qt version and is not part of this model.
- LinkPattern.QuadEndIsQuadAt: the no-digit lookahead after a quad is stated with IsDigit, so a quad followed by a non-ASCII Unicode digit is accepted here and rejected by QRegExp (see LinkPattern.IsDigit).
- LinkPattern.FloatEndIsFloatAt: the digits of the float grammar are ASCII (see LinkPattern.IsDigit), so a quality written with non-ASCII Unicode digits is rejected here and accepted by QRegExp.
- The commented-out debug output at the end of `telnetMessage` is not modelled.
- `src/ui/MeshStatus.h` holds declarations only and is not modelled.

## Findings

| source | as written | input that shows it | evidently intended | confidence | as-written member | corrected member |
|---|---|---|---|---|---|---|
| src/ui/MeshStatus.cc:94-98 | `for (int i = 0; i < rowCount(); i++) removeRow(0);` increases `i` while removing a row, so it stops after (n + 1) / 2 passes | a table of 2 rows: one pass removes row 0, then `i == 1 == rowCount()` and the loop stops, leaving the second row; every later message keeps the last half of the old table above the new rows | delete every row, as the comment above the loop says | high; not executed | MeshStatusWidget.MeshStatus.ClearRows, MeshStatusWidget.ClearingTwoRowsLeavesOne, MeshStatusWidget.MeshStatus.TelnetMessage | MeshStatusWidget.MeshStatus.RemoveAllRows, MeshStatusWidget.MeshStatus.TelnetMessageCorrected |
