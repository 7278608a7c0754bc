/** Log rotation by size: include/spdlog/sinks/rotating_file_sink-inl.h.

    File 0 is the one being written, files 1, 2, ... are older and older; a file is the list of the
    formatted messages in it.  Removing and renaming files may fail whenever they are tried: what
    becomes of each attempt is an input. */
module RotatingFile {

  type Message = string

  type Files = map<nat, seq<Message>>

  function Size(file: seq<Message>): nat {
    if file == [] then 0 else Size(file[..|file| - 1]) + |file[|file| - 1]|
  }

  /** One attempt at renaming a file: whether the target is removed, and whether renaming succeeds. */
  datatype Attempt = Attempt(removes: bool, renames: bool)

  /** What the file system does during one rotation: `outcomes(i, 0)` is the first attempt at renaming
      to file `i`, `outcomes(i, 1)` the second one. */
  type Outcomes = (nat, nat) -> Attempt

  function Content(files: Files, i: nat): seq<Message> {
    if i in files then files[i] else []
  }

  /** What one reads in the files `i`, `i` - 1, ..., 0: the oldest messages first. */
  function Read(files: Files, i: nat): seq<Message> {
    Content(files, i) + if i == 0 then [] else Read(files, i - 1)
  }

  // ----- rotating -----

  /** File `i` - 1, if there is one, becomes file `i`. */
  function MoveUp(files: Files, i: nat): Files
    requires i > 0
  {
    if i - 1 in files then (files - {i - 1})[i := files[i - 1]] else files
  }

  /** The files after the rounds `n`, `n` - 1, ..., `i` + 1 of a rotation. */
  function ShiftedTo(files: Files, n: nat, i: nat): Files
    requires i <= n
    decreases n
  {
    if n == i then files else ShiftedTo(MoveUp(files, n), n - 1, i)
  }

  function Rotated(files: Files, maxFiles: nat): Files {
    ShiftedTo(files, maxFiles, 0)[0 := []]
  }

  /** What a rotation throws away: the oldest file, if another takes its place. */
  function Dropped(files: Files, maxFiles: nat): seq<Message> {
    if maxFiles == 0 || maxFiles - 1 in files then Content(files, maxFiles) else []
  }

  /** The files when round `i` failed: its target may be gone, and file 0 is emptied. */
  function Broken(files: Files, maxFiles: nat, i: nat, removed: bool): Files
    requires i <= maxFiles
  {
    var shifted := ShiftedTo(files, maxFiles, i);
    (if removed then shifted - {i} else shifted)[0 := []]
  }

  /** There is a file for round `i` to rename, and both attempts fail. */
  ghost predicate RoundFails(files: Files, outcomes: Outcomes, i: nat) {
    i > 0 && i - 1 in files && !outcomes(i, 0).renames && !outcomes(i, 1).renames
  }

  ghost predicate SomeRoundFails(files: Files, maxFiles: nat, outcomes: Outcomes) {
    exists i: nat :: i <= maxFiles && RoundFails(files, outcomes, i)
  }

  /** Round `i` is the first one that fails. */
  ghost predicate BrokenIn(files: Files, maxFiles: nat, outcomes: Outcomes, i: nat, next: Files) {
    && 0 < i <= maxFiles && RoundFails(files, outcomes, i)
    && (forall k: nat :: i < k <= maxFiles ==> !RoundFails(files, outcomes, k))
    && next == Broken(files, maxFiles, i, outcomes(i, 0).removes || outcomes(i, 1).removes)
  }

  lemma {:induction false} ReadSame(f: Files, g: Files, i: nat)
    requires forall k: nat :: k <= i ==> Content(f, k) == Content(g, k)
    ensures Read(f, i) == Read(g, i)
  {
    if i > 0 {
      ReadSame(f, g, i - 1);
    }
  }

  lemma {:induction false} ReadTruncated(files: Files, i: nat)
    ensures Read(files, i) == Read(files[0 := []], i) + Content(files, 0)
  {
    if i > 0 {
      ReadTruncated(files, i - 1);
      assert Content(files[0 := []], i) == Content(files, i);
    }
  }

  /** Where there is a free slot, moving files up into it loses nothing and keeps their order. */
  lemma {:induction false} ShiftKeeps(files: Files, n: nat, i: nat)
    requires i <= n && n !in files
    decreases n
    ensures var shifted := ShiftedTo(files, n, i);
      && Read(shifted, n) == Read(files, n) && i !in shifted
      && forall k: nat :: k < i || k > n ==> Content(shifted, k) == Content(files, k) && (k in shifted <==> k in files)
  {
    if i < n {
      var next := MoveUp(files, n);
      ShiftKeeps(next, n - 1, i);
      ReadMoved(files, n);
    }
  }

  lemma ReadMoved(files: Files, n: nat)
    requires n > 0
    ensures n - 1 !in MoveUp(files, n)
    ensures Content(MoveUp(files, n), n) + Read(MoveUp(files, n), n - 1)
         == (if n - 1 in files then [] else Content(files, n)) + Read(files, n - 1)
  {
    var next := MoveUp(files, n);
    if n - 1 in files {
      if n > 1 {
        ReadSame(files, next, n - 2);
      }
    }
  }

  lemma ReadOnce(files: Files, n: nat)
    requires n > 0
    ensures Read(files, n) == Content(files, n) + Read(files, n - 1)
  {
  }

  lemma ReadShifted(files: Files, n: nat, i: nat)
    requires i < n
    ensures var shifted := ShiftedTo(files, n, i);
      && Read(files, n) == Dropped(files, n) + Read(shifted, n) && i !in shifted
      && forall k: nat :: k < i ==> Content(shifted, k) == Content(files, k) && (k in shifted <==> k in files)
  {
    hide MoveUp, ShiftedTo, Read, Content;
    var next := MoveUp(files, n);
    ReadOnce(files, n);
    ReadOnce(next, n);
    ReadMoved(files, n);
    ShiftOnce(files, n, i);
    ShiftKeeps(next, n - 1, i);
    MoveUpKeeps(files, n);
    ReadOnce(ShiftedTo(files, n, i), n);
    assert Read(ShiftedTo(files, n, i), n) == Content(next, n) + Read(next, n - 1);
  }

  lemma ShiftOnce(files: Files, n: nat, i: nat)
    requires i < n
    ensures ShiftedTo(files, n, i) == ShiftedTo(MoveUp(files, n), n - 1, i)
  {
  }

  lemma MoveUpKeeps(files: Files, n: nat)
    requires n > 0
    ensures var next := MoveUp(files, n);
      forall k: nat :: k != n && k != n - 1 ==> Content(next, k) == Content(files, k) && (k in next <==> k in files)
  {
  }

  /** The rounds move each file up by one; the last one stays if no other takes its place. */
  lemma {:induction false} ShiftedFileByFile(files: Files, n: nat, k: nat)
    ensures var shifted := ShiftedTo(files, n, 0);
      && (0 < k <= n && k - 1 in files ==> k in shifted && shifted[k] == files[k - 1])
      && (k < n && (k > 0 ==> k - 1 !in files) ==> k !in shifted)
      && (k > n || (k == n && (k > 0 ==> k - 1 !in files)) ==>
            (k in shifted <==> k in files) && Content(shifted, k) == Content(files, k))
    decreases n
  {
    if n > 0 {
      ShiftOnce(files, n, 0);
      ShiftedFileByFile(MoveUp(files, n), n - 1, k);
    }
  }

  /** After a rotation file 0 is empty and every other file is what the one before it was; only the
      oldest file stays where it was if there is none before it. */
  lemma RotatedFileByFile(files: Files, maxFiles: nat, k: nat)
    ensures var rotated := Rotated(files, maxFiles);
      && 0 in rotated && rotated[0] == []
      && (0 < k <= maxFiles && k - 1 in files ==> k in rotated && rotated[k] == files[k - 1])
      && (0 < k < maxFiles && k - 1 !in files ==> k !in rotated)
      && ((0 < k == maxFiles && k - 1 !in files) || k > maxFiles ==>
            (k in rotated <==> k in files) && Content(rotated, k) == Content(files, k))
  {
    ShiftedFileByFile(files, maxFiles, k);
  }

  /** A rotation drops the oldest file, or nothing if there is still room, and keeps the order. */
  lemma ReadRotated(files: Files, maxFiles: nat)
    ensures Read(files, maxFiles) == Dropped(files, maxFiles) + Read(Rotated(files, maxFiles), maxFiles)
  {
    if maxFiles > 0 {
      hide ShiftedTo;
      var shifted := ShiftedTo(files, maxFiles, 0);
      ReadShifted(files, maxFiles, 0);
      ReadTruncated(shifted, maxFiles);
    }
  }

  /** What a failed rotation drops of the oldest messages. */
  function DroppedByFailure(files: Files, maxFiles: nat, i: nat, removed: bool): seq<Message> {
    if i < maxFiles then Dropped(files, maxFiles)
    else if removed then Content(files, maxFiles)
    else []
  }

  lemma ReadUnshifted(files: Files, n: nat, removed: bool)
    requires n > 0
    ensures var left := if removed then files - {n} else files;
      Read(files, n) == DroppedByFailure(files, n, n, removed) + Read(left, n) && Content(left, 0) == Content(files, 0)
  {
    if removed {
      ReadSame(files, files - {n}, n - 1);
    }
  }

  lemma ReadPartlyShifted(files: Files, n: nat, i: nat, removed: bool)
    requires 0 < i < n
    ensures var shifted := ShiftedTo(files, n, i);
      var left := if removed then shifted - {i} else shifted;
      Read(files, n) == DroppedByFailure(files, n, i, removed) + Read(left, n) && Content(left, 0) == Content(files, 0)
  {
    hide ShiftedTo;
    ReadShifted(files, n, i);
    var shifted := ShiftedTo(files, n, i);
    ReadSame(shifted, shifted - {i}, n);
  }

  /** A failed rotation loses the newest file, and the oldest one if that had been dropped already. */
  lemma ReadBroken(files: Files, maxFiles: nat, i: nat, removed: bool)
    requires 0 < i <= maxFiles
    ensures Read(files, maxFiles)
         == DroppedByFailure(files, maxFiles, i, removed) + Read(Broken(files, maxFiles, i, removed), maxFiles)
          + Content(files, 0)
  {
    var shifted := ShiftedTo(files, maxFiles, i);
    var left := if removed then shifted - {i} else shifted;
    if i < maxFiles {
      ReadPartlyShifted(files, maxFiles, i, removed);
    } else {
      ReadUnshifted(files, maxFiles, removed);
    }
    hide ShiftedTo, Read, DroppedByFailure;
    ReadTruncated(left, maxFiles);
    JoinRight(DroppedByFailure(files, maxFiles, i, removed), Read(left[0 := []], maxFiles), Content(files, 0));
  }

  lemma JoinRight(a: seq<Message>, b: seq<Message>, c: seq<Message>)
    ensures a + (b + c) == a + b + c
  {
  }

  // ----- the sink -----

  /** The files, and the size that the sink believes file 0 to have. */
  datatype Log = Log(files: Files, size: nat)

  datatype Limits = Limits(maxSize: nat, maxFiles: nat)

  function Append(files: Files, msg: Message): Files {
    files[0 := Content(files, 0) + [msg]]
  }

  /** Logging a message when no renaming fails. */
  function Sunk(s: Log, msg: Message, lim: Limits): Log {
    if s.size + |msg| > lim.maxSize then Log(Append(Rotated(s.files, lim.maxFiles), msg), |msg|)
    else Log(Append(s.files, msg), s.size + |msg|)
  }

  /** Logging a message: where a rotation is due and some round of it fails, the message is lost as well. */
  ghost predicate Next(s: Log, msg: Message, lim: Limits, outcomes: Outcomes, next: Log) {
    if s.size + |msg| > lim.maxSize && SomeRoundFails(s.files, lim.maxFiles, outcomes) then
      next.size == 0 && exists i: nat :: BrokenIn(s.files, lim.maxFiles, outcomes, i, next.files)
    else
      next == Sunk(s, msg, lim)
  }

  /** Opening the sink: file 0 is appended to, or moved away if that is asked for and it is not empty. */
  function Opened(files: Files, lim: Limits, rotateOnOpen: bool): Log {
    var all := Append0(files);
    var size := Size(all[0]);
    Log(if rotateOnOpen && size > 0 then Rotated(all, lim.maxFiles) else all, size)
  }

  /** The files once file 0 exists. */
  function Append0(files: Files): (r: Files)
    ensures 0 in r
  {
    files[0 := Content(files, 0)]
  }

  // ----- what is kept -----

  ghost predicate IsSuffix(a: seq<Message>, b: seq<Message>) {
    |a| <= |b| && b[|b| - |a|..] == a
  }

  lemma {:induction false} ReadAppended(files: Files, msg: Message, i: nat)
    ensures Read(Append(files, msg), i) == Read(files, i) + [msg]
  {
    if i > 0 {
      ReadAppended(files, msg, i - 1);
      assert Content(Append(files, msg), i) == Content(files, i);
    }
  }

  /** Logging a message adds it at the end and drops at most the oldest file, as a whole. */
  lemma ReadSunk(s: Log, msg: Message, lim: Limits)
    ensures var kept := Read(Sunk(s, msg, lim).files, lim.maxFiles);
      if s.size + |msg| > lim.maxSize then Dropped(s.files, lim.maxFiles) + kept == Read(s.files, lim.maxFiles) + [msg]
      else kept == Read(s.files, lim.maxFiles) + [msg]
  {
    hide Read, Rotated;
    ReadRotated(s.files, lim.maxFiles);
    ReadAppended(Rotated(s.files, lim.maxFiles), msg, lim.maxFiles);
    ReadAppended(s.files, msg, lim.maxFiles);
    JoinRight(Dropped(s.files, lim.maxFiles), Read(Rotated(s.files, lim.maxFiles), lim.maxFiles), [msg]);
  }

  lemma SunkIsSuffix(s: Log, msg: Message, lim: Limits)
    ensures IsSuffix(Read(Sunk(s, msg, lim).files, lim.maxFiles), Read(s.files, lim.maxFiles) + [msg])
  {
    hide Read, Sunk;
    ReadSunk(s, msg, lim);
  }

  /** A whole run without failures. */
  function Run(s: Log, msgs: seq<Message>, lim: Limits): Log {
    if msgs == [] then s else Sunk(Run(s, msgs[..|msgs| - 1], lim), msgs[|msgs| - 1], lim)
  }

  /** After any run the files hold the end of everything that was ever logged, with nothing missing
      and in order. */
  lemma {:induction false} RunRetains(s: Log, msgs: seq<Message>, lim: Limits)
    ensures IsSuffix(Read(Run(s, msgs, lim).files, lim.maxFiles), Read(s.files, lim.maxFiles) + msgs)
  {
    hide Read, Sunk, IsSuffix;
    if msgs == [] {
      SuffixSelf(Read(s.files, lim.maxFiles));
      assert Read(s.files, lim.maxFiles) + msgs == Read(s.files, lim.maxFiles);
    } else {
      var front, msg := msgs[..|msgs| - 1], msgs[|msgs| - 1];
      RunRetains(s, front, lim);
      SunkRetains(Run(s, front, lim), Read(s.files, lim.maxFiles) + front, msg, lim);
      assert front + [msg] == msgs;
      JoinRight(Read(s.files, lim.maxFiles), front, [msg]);
    }
  }

  lemma SunkRetains(s: Log, all: seq<Message>, msg: Message, lim: Limits)
    requires IsSuffix(Read(s.files, lim.maxFiles), all)
    ensures IsSuffix(Read(Sunk(s, msg, lim).files, lim.maxFiles), all + [msg])
  {
    hide Read, Sunk, IsSuffix;
    SunkIsSuffix(s, msg, lim);
    SuffixGrows(Read(s.files, lim.maxFiles), all, msg);
    SuffixOfSuffix(Read(Sunk(s, msg, lim).files, lim.maxFiles), Read(s.files, lim.maxFiles) + [msg], all + [msg]);
  }

  lemma SuffixSelf(a: seq<Message>)
    ensures IsSuffix(a, a)
  {
  }

  lemma SuffixGrows(a: seq<Message>, b: seq<Message>, msg: Message)
    requires IsSuffix(a, b)
    ensures IsSuffix(a + [msg], b + [msg])
  {
  }

  /** What is left of a suffix when something is dropped from its front. */
  lemma SuffixOfSuffix(a: seq<Message>, b: seq<Message>, c: seq<Message>)
    requires IsSuffix(b, c) && IsSuffix(a, b)
    ensures IsSuffix(a, c)
  {
  }

  // ----- runs with failures -----

  /** `a` is `b` without some of its elements. */
  ghost predicate IsSubsequence(a: seq<Message>, b: seq<Message>) {
    if a == [] then true
    else if b == [] then false
    else
      || (a[|a| - 1] == b[|b| - 1] && IsSubsequence(a[..|a| - 1], b[..|b| - 1]))
      || IsSubsequence(a, b[..|b| - 1])
  }

  lemma {:induction false} SubsequenceSelf(a: seq<Message>)
    ensures IsSubsequence(a, a)
  {
    if a != [] {
      SubsequenceSelf(a[..|a| - 1]);
    }
  }

  lemma SubsequenceGrows(a: seq<Message>, b: seq<Message>, msg: Message)
    requires IsSubsequence(a, b)
    ensures IsSubsequence(a, b + [msg]) && IsSubsequence(a + [msg], b + [msg])
  {
    assert (b + [msg])[..|b|] == b && (a + [msg])[..|a|] == a;
  }

  /** The last elements may be left out of what is left, and so may the first ones. */
  lemma {:induction false} SubsequenceOfFront(a: seq<Message>, rest: seq<Message>, b: seq<Message>)
    requires IsSubsequence(a + rest, b)
    ensures IsSubsequence(a, b)
    decreases |rest| + |b|
  {
    var all := a + rest;
    if a != [] && rest != [] {
      var front := b[..|b| - 1];
      if all[|all| - 1] == b[|b| - 1] && IsSubsequence(all[..|all| - 1], front) {
        assert all[..|all| - 1] == a + rest[..|rest| - 1];
        SubsequenceOfFront(a, rest[..|rest| - 1], front);
        SubsequenceGrows(a, front, b[|b| - 1]);
        assert front + [b[|b| - 1]] == b;
      } else {
        SubsequenceOfFront(a, rest, front);
      }
    } else {
      assert rest == [] ==> all == a;
    }
  }

  lemma {:induction false} SubsequenceOfBack(first: seq<Message>, a: seq<Message>, b: seq<Message>)
    requires IsSubsequence(first + a, b)
    ensures IsSubsequence(a, b)
    decreases |b|
  {
    var all := first + a;
    if a != [] {
      var front := b[..|b| - 1];
      if all[|all| - 1] == b[|b| - 1] && IsSubsequence(all[..|all| - 1], front) {
        assert all[..|all| - 1] == first + a[..|a| - 1];
        SubsequenceOfBack(first, a[..|a| - 1], front);
      } else {
        SubsequenceOfBack(first, a, front);
      }
    }
  }

  /** `trace[k]` is the state after the first `k` messages, and `outs[k]` what the file system does while
      message `k` is logged. */
  ghost predicate IsRun(trace: seq<Log>, msgs: seq<Message>, outs: seq<Outcomes>, lim: Limits) {
    && |trace| == |msgs| + 1 && |outs| == |msgs|
    && forall k :: 0 <= k < |msgs| ==> Next(trace[k], msgs[k], lim, outs[k], trace[k + 1])
  }

  lemma NextRetains(s: Log, all: seq<Message>, msg: Message, lim: Limits, outcomes: Outcomes, next: Log)
    requires Next(s, msg, lim, outcomes, next) && IsSubsequence(Read(s.files, lim.maxFiles), all)
    ensures IsSubsequence(Read(next.files, lim.maxFiles), all + [msg])
  {
    hide Read, Sunk, IsSubsequence, Broken, DroppedByFailure;
    var kept := Read(s.files, lim.maxFiles);
    if next == Sunk(s, msg, lim) {
      ReadSunk(s, msg, lim);
      SubsequenceGrows(kept, all, msg);
      if s.size + |msg| > lim.maxSize {
        SubsequenceOfBack(Dropped(s.files, lim.maxFiles), Read(next.files, lim.maxFiles), all + [msg]);
      }
    } else {
      var i: nat :| BrokenIn(s.files, lim.maxFiles, outcomes, i, next.files);
      var removed := outcomes(i, 0).removes || outcomes(i, 1).removes;
      ReadBroken(s.files, lim.maxFiles, i, removed);
      var dropped := DroppedByFailure(s.files, lim.maxFiles, i, removed);
      SubsequenceOfFront(dropped + Read(next.files, lim.maxFiles), Content(s.files, 0), all);
      SubsequenceOfBack(dropped, Read(next.files, lim.maxFiles), all);
      SubsequenceGrows(Read(next.files, lim.maxFiles), all, msg);
    }
  }

  /** Whatever fails, the files hold some of the messages that were ever logged, in order. */
  lemma {:induction false} RunKeepsOrder(trace: seq<Log>, msgs: seq<Message>, outs: seq<Outcomes>, lim: Limits)
    requires IsRun(trace, msgs, outs, lim)
    ensures IsSubsequence(Read(trace[|msgs|].files, lim.maxFiles), Read(trace[0].files, lim.maxFiles) + msgs)
    decreases |msgs|
  {
    hide Read, Sunk, IsSubsequence, Next;
    var first := Read(trace[0].files, lim.maxFiles);
    if msgs == [] {
      SubsequenceSelf(first);
      assert first + msgs == first;
    } else {
      var n := |msgs| - 1;
      RunKeepsOrder(trace[..n + 1], msgs[..n], outs[..n], lim);
      NextRetains(trace[n], first + msgs[..n], msgs[n], lim, outs[n], trace[n + 1]);
      JoinRight(first, msgs[..n], [msgs[n]]);
      assert msgs[..n] + [msgs[n]] == msgs;
    }
  }

  // ----- how big the files get -----

  /** The file is within the limit, or it is one message that would not fit anyway. */
  ghost predicate FileOk(file: seq<Message>, maxSize: nat) {
    Size(file) <= maxSize || (|file| == 1 && file[0] != [])
  }

  ghost predicate FilesOk(files: Files, lim: Limits) {
    forall k :: k in files ==> k <= lim.maxFiles && FileOk(files[k], lim.maxSize)
  }

  /** The sink never believes file 0 to be smaller than it is. */
  ghost predicate Inv(s: Log, lim: Limits) {
    0 in s.files && Size(s.files[0]) <= s.size && FilesOk(s.files, lim)
  }

  lemma {:induction false} ShiftedToOk(files: Files, n: nat, i: nat, lim: Limits)
    requires i <= n <= lim.maxFiles && FilesOk(files, lim)
    ensures FilesOk(ShiftedTo(files, n, i), lim)
    decreases n
  {
    if i < n {
      assert FilesOk(MoveUp(files, n), lim);
      ShiftedToOk(MoveUp(files, n), n - 1, i, lim);
    }
  }

  lemma SizeOfOneMore(file: seq<Message>, msg: Message)
    ensures Size(file + [msg]) == Size(file) + |msg|
  {
    assert (file + [msg])[..|file|] == file;
  }

  lemma AppendKeepsOk(files: Files, msg: Message, lim: Limits)
    requires FilesOk(files, lim)
    requires Content(files, 0) == [] || Size(Content(files, 0)) + |msg| <= lim.maxSize
    ensures FilesOk(Append(files, msg), lim)
  {
    var file := Content(files, 0);
    SizeOfOneMore(file, msg);
    if file == [] {
      assert file + [msg] == [msg] && Size(file) == 0;
    }
    assert FileOk(file + [msg], lim.maxSize);
    hide FileOk, Size;
  }

  lemma SunkKeepsInv(s: Log, msg: Message, lim: Limits)
    requires Inv(s, lim)
    ensures Inv(Sunk(s, msg, lim), lim)
  {
    hide ShiftedTo, FileOk, Size;
    if s.size + |msg| > lim.maxSize {
      ShiftedToOk(s.files, lim.maxFiles, 0, lim);
      EmptyIsOk(lim.maxSize);
      AppendKeepsOk(Rotated(s.files, lim.maxFiles), msg, lim);
      SizeOfOneMore([], msg);
    } else {
      AppendKeepsOk(s.files, msg, lim);
      SizeOfOneMore(s.files[0], msg);
    }
  }

  /** From a fresh start no file is ever too big, whatever fails. */
  lemma NextKeepsInv(s: Log, msg: Message, lim: Limits, outcomes: Outcomes, next: Log)
    requires Inv(s, lim) && Next(s, msg, lim, outcomes, next)
    ensures Inv(next, lim)
  {
    if next == Sunk(s, msg, lim) {
      SunkKeepsInv(s, msg, lim);
    } else {
      hide ShiftedTo, FileOk;
      var i: nat :| BrokenIn(s.files, lim.maxFiles, outcomes, i, next.files);
      ShiftedToOk(s.files, lim.maxFiles, i, lim);
      EmptyIsOk(lim.maxSize);
    }
  }

  lemma EmptyIsOk(maxSize: nat)
    ensures FileOk([], maxSize) && Size([]) == 0
  {
  }

  lemma {:induction false} RunKeepsInv(trace: seq<Log>, msgs: seq<Message>, outs: seq<Outcomes>, lim: Limits)
    requires IsRun(trace, msgs, outs, lim) && Inv(trace[0], lim)
    ensures forall k :: 0 <= k <= |msgs| ==> Inv(trace[k], lim)
    decreases |msgs|
  {
    hide Inv, Next;
    if msgs != [] {
      var n := |msgs| - 1;
      RunKeepsInv(trace[..n + 1], msgs[..n], outs[..n], lim);
      assert trace[..n + 1][n] == trace[n];
      NextKeepsInv(trace[n], msgs[n], lim, outs[n], trace[n + 1]);
      forall k | 0 <= k <= |msgs| ensures Inv(trace[k], lim) {
        assert k <= n ==> trace[..n + 1][k] == trace[k];
      }
    }
  }

  /** Where no file of the sink exists, opening it is a fresh start. */
  lemma FreshIsOk(lim: Limits, rotateOnOpen: bool)
    ensures Opened(map[], lim, rotateOnOpen) == Log(map[0 := []], 0) && Inv(Opened(map[], lim, rotateOnOpen), lim)
  {
  }

  lemma {:induction false} ReadNothing(i: nat)
    ensures Read(map[0 := []], i) == []
  {
    if i > 0 {
      ReadNothing(i - 1);
    }
  }

  /** A second attempt is always enough. */
  ghost predicate RetriesSucceed(outcomes: Outcomes) {
    forall i: nat :: outcomes(i, 0).renames || outcomes(i, 1).renames
  }

  /** A run in which no renaming fails twice is the run without failures. */
  lemma {:induction false} RunWithRetries(trace: seq<Log>, msgs: seq<Message>, outs: seq<Outcomes>, lim: Limits)
    requires IsRun(trace, msgs, outs, lim) && forall k :: 0 <= k < |outs| ==> RetriesSucceed(outs[k])
    ensures trace[|msgs|] == Run(trace[0], msgs, lim)
    decreases |msgs|
  {
    hide Sunk;
    if msgs != [] {
      var n := |msgs| - 1;
      RunWithRetries(trace[..n + 1], msgs[..n], outs[..n], lim);
      assert RetriesSucceed(outs[n]) && Next(trace[n], msgs[n], lim, outs[n], trace[n + 1]);
    }
  }

  /** A log opened where there were no files: at every moment all files are within their limits, at the
      end they hold a subsequence of what was logged, whatever failed, and the end of it if no renaming
      failed twice. */
  lemma LogFromNoFiles(lim: Limits, rotateOnOpen: bool, trace: seq<Log>, msgs: seq<Message>, outs: seq<Outcomes>)
    requires IsRun(trace, msgs, outs, lim) && trace[0] == Opened(map[], lim, rotateOnOpen)
    ensures forall k :: 0 <= k <= |msgs| ==> FilesOk(trace[k].files, lim)
    ensures IsSubsequence(Read(trace[|msgs|].files, lim.maxFiles), msgs)
    ensures (forall k, i: nat :: 0 <= k < |outs| ==> outs[k](i, 0).renames || outs[k](i, 1).renames) ==>
      IsSuffix(Read(trace[|msgs|].files, lim.maxFiles), msgs)
  {
    hide Read, IsSubsequence, IsSuffix, FilesOk, Opened, Next;
    FreshIsOk(lim, rotateOnOpen);
    ReadNothing(lim.maxFiles);
    assert [] + msgs == msgs;
    RunKeepsInv(trace, msgs, outs, lim);
    RunKeepsOrder(trace, msgs, outs, lim);
    if forall k, i: nat :: 0 <= k < |outs| ==> outs[k](i, 0).renames || outs[k](i, 1).renames {
      RunWithRetries(trace, msgs, outs, lim);
      RunRetains(trace[0], msgs, lim);
    }
  }

  /** The size is right after opening, unless a file was rotated away: then it is still that file's. */
  lemma SizeIsExactIff(files: Files, lim: Limits, rotateOnOpen: bool)
    ensures var s := Opened(files, lim, rotateOnOpen);
      Size(s.files[0]) == s.size <==> !(rotateOnOpen && Size(Content(files, 0)) > 0)
  {
  }

  /** Once right it stays right, whatever fails, and any rotation makes it right. */
  lemma NextSizeIsExact(s: Log, msg: Message, lim: Limits, outcomes: Outcomes, next: Log)
    requires Next(s, msg, lim, outcomes, next)
    requires (0 in s.files && Size(s.files[0]) == s.size) || s.size + |msg| > lim.maxSize
    ensures 0 in next.files && Size(next.files[0]) == next.size
  {
    hide ShiftedTo, Size;
    EmptyIsOk(lim.maxSize);
    SizeOfOneMore(Content(s.files, 0), msg);
    SizeOfOneMore([], msg);
  }

  /** The price of the wrong size: a sink that rotated on opening rotates again for the first message
      that would not have fitted into the old file, and leaves an empty file behind. */
  lemma RotatesTwice(files: Files, lim: Limits, msg: Message)
    requires lim.maxFiles > 0 && Size(Content(files, 0)) > 0
    requires Size(Content(files, 0)) + |msg| > lim.maxSize
    ensures var s := Sunk(Opened(files, lim, true), msg, lim);
      1 in s.files && s.files[1] == [] && s.files[0] == [msg]
  {
    hide ShiftedTo;
    var s := Opened(files, lim, true);
    LastRound(s.files, lim.maxFiles);
    assert [] + [msg] == [msg];
  }

  /** The last round of a rotation makes file 0 file 1. */
  lemma {:induction false} LastRound(files: Files, n: nat)
    requires n > 0 && 0 in files
    decreases n
    ensures 1 in ShiftedTo(files, n, 0) && ShiftedTo(files, n, 0)[1] == files[0]
  {
    if n > 1 {
      LastRound(MoveUp(files, n), n - 1);
    } else {
      assert ShiftedTo(files, 1, 0) == MoveUp(files, 1);
    }
  }

  // ----- the class -----

  lemma {:induction false} OneMoreRound(files: Files, n: nat, i: nat)
    requires 0 < i <= n
    ensures ShiftedTo(files, n, i - 1) == MoveUp(ShiftedTo(files, n, i), i)
    decreases n
  {
    if i < n {
      OneMoreRound(MoveUp(files, n), n - 1, i);
    }
  }

  /** The rounds down to `i` leave the files below `i` alone. */
  lemma {:induction false} ShiftKeepsLow(files: Files, n: nat, i: nat, k: nat)
    requires k < i <= n
    ensures k in ShiftedTo(files, n, i) <==> k in files
    decreases n
  {
    if i < n {
      ShiftKeepsLow(MoveUp(files, n), n - 1, i, k);
    }
  }

  class RotatingFileSink {
    const maxSize: nat
    const maxFiles: nat
    var currentSize: nat
    var files: Files

    ghost function State(): Log
      reads this
    {
      Log(files, currentSize)
    }

    ghost function Lim(): Limits {
      Limits(maxSize, maxFiles)
    }

    constructor (files: Files, maxSize: nat, maxFiles: nat)
      ensures this.maxSize == maxSize && this.maxFiles == maxFiles
      ensures State() == Opened(files, Limits(maxSize, maxFiles), false)
    {
      this.maxSize := maxSize;
      this.maxFiles := maxFiles;
      this.files := Append0(files);
      currentSize := Size(Append0(files)[0]);
    }

    /** Opening the sink; `ok` is false if that throws. */
    static method Open(files: Files, maxSize: nat, maxFiles: nat, rotateOnOpen: bool, outcomes: Outcomes)
      returns (sink: RotatingFileSink, ok: bool)
      ensures fresh(sink) && sink.maxSize == maxSize && sink.maxFiles == maxFiles
      ensures !ok <==> rotateOnOpen && Size(Content(files, 0)) > 0 && SomeRoundFails(Append0(files), maxFiles, outcomes)
      ensures RetriesSucceed(outcomes) ==> ok
      ensures ok ==> sink.State() == Opened(files, Limits(maxSize, maxFiles), rotateOnOpen)
      ensures !ok ==> exists i: nat :: BrokenIn(Append0(files), maxFiles, outcomes, i, sink.files)
    {
      sink := new RotatingFileSink(files, maxSize, maxFiles);
      ok := true;
      if rotateOnOpen && sink.currentSize > 0 {
        ok := sink.Rotate(outcomes);
      }
    }

    /** Logging a message; `ok` is false if that throws. */
    method SinkIt(formatted: Message, outcomes: Outcomes) returns (ok: bool)
      modifies this
      ensures Next(old(State()), formatted, Lim(), outcomes, State())
      ensures !ok <==> old(currentSize) + |formatted| > maxSize && SomeRoundFails(old(files), maxFiles, outcomes)
      ensures RetriesSucceed(outcomes) ==> ok
      ensures ok ==> State() == Sunk(old(State()), formatted, Lim())
      ensures old(currentSize) + |formatted| <= maxSize ==>
        && ok && currentSize == old(currentSize) + |formatted|
        && files == old(files)[0 := Content(old(files), 0) + [formatted]]
      ensures old(currentSize) + |formatted| > maxSize && ok ==>
        && currentSize == |formatted| && 0 in files && files[0] == [formatted]
        && forall k: nat :: k < maxFiles && k in old(files) ==> k + 1 in files && files[k + 1] == old(files)[k]
    {
      ghost var before := files;
      currentSize := currentSize + |formatted|;
      if currentSize > maxSize {
        ok := Rotate(outcomes);
        if !ok {
          return;
        }
        currentSize := |formatted|;
        forall k: nat {
          RotatedFileByFile(before, maxFiles, k);
        }
        assert files[0] + [formatted] == [formatted];
      }
      files := Append(files, formatted);
      ok := true;
    }

    /** `ok` is false if this throws: in some round with a file to rename both attempts failed. */
    method Rotate(outcomes: Outcomes) returns (ok: bool)
      modifies this
      ensures ok <==> forall i: nat :: 0 < i <= maxFiles && i - 1 in old(files) ==>
        outcomes(i, 0).renames || outcomes(i, 1).renames
      ensures ok <==> !SomeRoundFails(old(files), maxFiles, outcomes)
      ensures ok ==> files == Rotated(old(files), maxFiles) && currentSize == old(currentSize)
      ensures !ok ==> currentSize == 0 && exists i: nat :: BrokenIn(old(files), maxFiles, outcomes, i, files)
    {
      ghost var before := files;
      var i: nat := maxFiles;
      while i > 0
        invariant i <= maxFiles && files == ShiftedTo(before, maxFiles, i) && currentSize == old(currentSize)
        invariant forall k: nat :: i < k <= maxFiles ==> !RoundFails(before, outcomes, k)
      {
        OneMoreRound(before, maxFiles, i);
        ShiftKeepsLow(before, maxFiles, i, i - 1);
        if i - 1 in files {
          ok := RenameFile(i - 1, i, outcomes(i, 0));
          if !ok {
            ok := RenameFile(i - 1, i, outcomes(i, 1));
            if !ok {
              files := files[0 := []];
              currentSize := 0;
              assert RoundFails(before, outcomes, i);
              assert BrokenIn(before, maxFiles, outcomes, i, files);
              return;
            }
          }
        }
        assert !RoundFails(before, outcomes, i);
        i := i - 1;
      }
      assert forall k: nat :: 0 < k <= maxFiles && k - 1 in before && !RoundFails(before, outcomes, k) ==>
        outcomes(k, 0).renames || outcomes(k, 1).renames;
      files := files[0 := []];
      ok := true;
    }

    /** Removing the target, the outcome of which is ignored, and renaming. */
    method RenameFile(src: nat, target: nat, attempt: Attempt) returns (ok: bool)
      requires src in files && src != target
      modifies this`files
      ensures ok == attempt.renames
      ensures ok ==> files == (old(files) - {src})[target := old(files)[src]]
      ensures !ok ==> files == if attempt.removes then old(files) - {target} else old(files)
    {
      if attempt.removes {
        files := files - {target};
      }
      ok := attempt.renames;
      if ok {
        files := (files - {src})[target := files[src]];
      }
    }
  }
}
