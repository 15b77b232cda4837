/** The names of the files of a rotating log. */
module RotatingNames {
  import opened Decimals

  function LastIndexOf(s: string, c: char): (i: int)
    ensures -1 <= i < |s|
    ensures i >= 0 ==> s[i] == c
    ensures forall j :: i < j < |s| ==> s[j] != c
  {
    if s == [] then -1 else if s[|s| - 1] == c then |s| - 1 else LastIndexOf(s[..|s| - 1], c)
  }

  /** `split_by_extension`: the path without its extension, and the extension with its dot. */
  function SplitByExtension(name: string): (r: (string, string))
    ensures r.0 + r.1 == name
  {
    var dot := LastIndexOf(name, '.');
    if dot == -1 || dot == 0 || dot == |name| - 1 then (name, "") else
      var folder := LastIndexOf(name, '/');
      if folder != -1 && folder >= dot - 1 then (name, "") else (name[..dot], name[dot..])
  }

  /** A dot may cut a name into stem and tail if neither is empty, the dot is the last one and in the last part of the
      path, and it does not begin that part, as in hidden files. */
  predicate IsExtension(stem: string, tail: string) {
    stem != [] && stem[|stem| - 1] != '/' && tail != [] && '.' !in tail && '/' !in tail
  }

  lemma SplitsAtExtension(stem: string, tail: string)
    requires IsExtension(stem, tail)
    ensures SplitByExtension(stem + "." + tail) == (stem, "." + tail)
  {
    var name, dot := stem + "." + tail, |stem|;
    assert name[dot] == '.' && name[dot - 1] == stem[dot - 1];
    assert forall j :: dot < j < |name| ==> name[j] == tail[j - dot - 1];
    assert name[..dot] == stem && name[dot..] == "." + tail;
  }

  /** A name without such a dot has no extension. */
  lemma ExtensionIsCut(name: string)
    ensures var (stem, ext) := SplitByExtension(name);
            if ext == [] then stem == name else ext[0] == '.' && IsExtension(stem, ext[1..])
    ensures SplitByExtension(name).1 == [] ==>
              forall stem, tail :: name == stem + "." + tail ==> !IsExtension(stem, tail)
  {
    forall stem, tail | name == stem + "." + tail && IsExtension(stem, tail)
      ensures SplitByExtension(name).1 != []
    {
      SplitsAtExtension(stem, tail);
    }
  }

  /** The index goes between stem and extension, in decimal digits. */
  lemma IndexedName(stem: string, tail: string, index: nat)
    requires IsExtension(stem, tail) && index > 0
    ensures CalcFilename(stem + "." + tail, index) == stem + "." + DecimalOf(index) + "." + tail
  {
    SplitsAtExtension(stem, tail);
    assert stem + "." + DecimalOf(index) + ("." + tail) == stem + "." + DecimalOf(index) + "." + tail;
  }

  lemma {:induction false} DecimalDenotes(n: nat)
    ensures AllDigits(DecimalOf(n)) && Digits(DecimalOf(n)) == n
    ensures n > 0 ==> DecimalOf(n)[0] != '0'
  {
    var c := '0' + (n % 10) as char;
    if n < 10 {
      assert DecimalOf(n) == [] + [c];
      DigitsSnoc([], c);
    } else {
      DecimalDenotes(n / 10);
      DigitsSnoc(DecimalOf(n / 10), c);
    }
  }

  function DecimalOf(n: nat): (s: string)
    ensures s != []
  {
    var digit := ['0' + (n % 10) as char];
    if n < 10 then digit else DecimalOf(n / 10) + digit
  }

  lemma DecimalLength(n: nat)
    ensures n < 10 <==> |DecimalOf(n)| == 1
  {
    if n >= 10 { assert |DecimalOf(n)| == |DecimalOf(n / 10)| + 1; }
  }

  lemma {:induction false} DecimalIsInjective(m: nat, n: nat)
    requires DecimalOf(m) == DecimalOf(n)
    ensures m == n
  {
    var x, y := DecimalOf(m), DecimalOf(n);
    assert x[|x| - 1] == '0' + (m % 10) as char && y[|y| - 1] == '0' + (n % 10) as char;
    DecimalLength(m);
    DecimalLength(n);
    if m >= 10 {
      assert x[..|x| - 1] == DecimalOf(m / 10) && y[..|y| - 1] == DecimalOf(n / 10);
      DecimalIsInjective(m / 10, n / 10);
    }
  }

  /** `calc_filename`: the base name itself for index 0, else base.index.ext. */
  function CalcFilename(base: string, index: nat): string {
    if index == 0 then base else
      var (stem, ext) := SplitByExtension(base);
      stem + "." + DecimalOf(index) + ext
  }

  /** Different indices name different files, so the files can be told apart by index. */
  lemma NamesAreDistinct(base: string, i: nat, j: nat)
    requires CalcFilename(base, i) == CalcFilename(base, j)
    ensures i == j
  {
    var (stem, ext) := SplitByExtension(base);
    IndexedIsLonger(base, i);
    IndexedIsLonger(base, j);
    if i != 0 {
      var a, b := DecimalOf(i), DecimalOf(j);
      var x, y := stem + "." + a + ext, stem + "." + b + ext;
      assert |a| == |b|;
      assert x[|stem| + 1..|stem| + 1 + |a|] == a && y[|stem| + 1..|stem| + 1 + |b|] == b;
      DecimalIsInjective(i, j);
    }
  }

  lemma IndexedIsLonger(base: string, i: nat)
    ensures if i == 0 then CalcFilename(base, i) == base else |CalcFilename(base, i)| > |base|
  {
    var (stem, ext) := SplitByExtension(base);
    assert |stem + "." + DecimalOf(i) + ext| == |base| + 1 + |DecimalOf(i)|;
  }
}

/** `rotating_file_sink`: a log cut into files, of which the newest max_files + 1 are kept. */
module RotatingFiles {
  import opened Sequences
  import opened Words

  // Maps from the index in a file's name, 0 being the file written to, to what the file holds: its bytes, or the
  // pieces that they are made of.

  /** Files 0 .. count - 1 exist and no others. */
  ghost predicate Contiguous<T>(files: map<nat, seq<T>>, count: nat) {
    forall i: nat :: i in files <==> i < count
  }

  /** The files below n, from the oldest (highest index) to the newest. */
  function ReadBack<T>(files: map<nat, seq<T>>, n: nat): seq<T>
    requires forall i :: 0 <= i < n ==> i in files
  {
    if n == 0 then [] else files[n - 1] + ReadBack(files, n - 1)
  }

  function Flatten(pieces: seq<Bytes>): Bytes {
    if pieces == [] then [] else Flatten(pieces[..|pieces| - 1]) + pieces[|pieces| - 1]
  }

  lemma {:induction false} FlattenSum(a: seq<Bytes>, b: seq<Bytes>)
    ensures Flatten(a + b) == Flatten(a) + Flatten(b)
  {
    if b == [] {
      assert a + b == a;
    } else {
      FlattenSum(a, b[..|b| - 1]);
      assert (a + b)[..|a + b| - 1] == a + b[..|b| - 1];
    }
  }

  /** The newest pieces make up the newest bytes. */
  lemma SuffixOfBytes(part: seq<Bytes>, whole: seq<Bytes>)
    requires IsSuffix(part, whole)
    ensures IsSuffix(Flatten(part), Flatten(whole))
  {
    var lost := whole[..|whole| - |part|];
    assert whole == lost + part;
    FlattenSum(lost, part);
  }

  // ---- Rotation ----

  /** No rename to a target above at fails. */
  ghost predicate NoneFails(was: set<nat>, failures: set<nat>, maxFiles: nat, at: nat) {
    forall i :: i in failures && at < i <= maxFiles ==> i - 1 !in was
  }

  /** Where the file at index i was before the targets above at were handled. */
  function Source(was: set<nat>, at: nat, i: nat): nat {
    if i > at && i - 1 in was then i - 1 else i
  }

  /** Whether there is a file at index i, other than at, when the targets above at have been handled: above, the file
      below it has moved there, and the topmost one stays if there is none below it; below, nothing has changed. */
  predicate Remains(was: set<nat>, maxFiles: nat, at: nat, i: nat) {
    if i > at then i <= maxFiles && (i - 1 in was || (i == maxFiles && i in was)) else i in was
  }

  /** The rotation loop has handled the targets above at. */
  ghost predicate MovedAround<T>(was: map<nat, seq<T>>, now: map<nat, seq<T>>, maxFiles: nat, at: nat) {
    && (forall i: nat :: i != at ==> (i in now <==> Remains(was.Keys, maxFiles, at, i)))
    && (forall i: nat :: i != at && i in now ==>
          Source(was.Keys, at, i) in was && now[i] == was[Source(was.Keys, at, i)])
  }

  ghost predicate IsMoved<T>(was: map<nat, seq<T>>, now: map<nat, seq<T>>, maxFiles: nat, at: nat) {
    MovedAround(was, now, maxFiles, at) && (if at < maxFiles then at !in now else now == was)
  }

  /** The rotation: every file has moved up by one index, the topmost is dropped when another takes its place, and
      there is a new file 0. */
  ghost predicate IsRotated<T>(was: map<nat, seq<T>>, now: map<nat, seq<T>>, maxFiles: nat) {
    MovedAround(was, now, maxFiles, 0) && 0 in now && now[0] == []
  }

  /** A rotation that failed at a target: it is missing, and file 0 is empty. */
  ghost predicate IsStuck(was: map<nat, Bytes>, now: map<nat, Bytes>, maxFiles: nat, at: nat) {
    && 0 < at <= maxFiles && at !in now && 0 in now && now[0] == []
    && exists moved :: MovedAround(was, moved, maxFiles, at) && now == moved[0 := []]
  }

  /** The pieces of the files that a rotation leaves. */
  ghost function Carried<T>(was: map<nat, seq<T>>, left: set<nat>, at: nat): map<nat, seq<T>> {
    map i: nat | i in left && (i == 0 || Source(was.Keys, at, i) in was) ::
      if i == 0 then [] else was[Source(was.Keys, at, i)]
  }

  /** One turn of the rotation loop: the file below target i is moved there, or there is none and nothing happens. */
  lemma MovedOneMore(was: map<nat, Bytes>, before: map<nat, Bytes>, now: map<nat, Bytes>, failures: set<nat>,
                     maxFiles: nat, i: nat)
    requires forall k: nat :: k in was ==> k <= maxFiles
    requires 0 < i <= maxFiles && IsMoved(was, before, maxFiles, i) && NoneFails(was.Keys, failures, maxFiles, i)
    requires now == if i - 1 in before then (before - {i - 1})[i := before[i - 1]] else before
    requires i - 1 in before ==> i !in failures
    ensures IsMoved(was, now, maxFiles, i - 1) && NoneFails(was.Keys, failures, maxFiles, i - 1)
  {
    assert i - 1 in before <==> i - 1 in was;
  }

  lemma StuckHere(was: map<nat, Bytes>, before: map<nat, Bytes>, failures: set<nat>, maxFiles: nat, i: nat)
    requires 0 < i <= maxFiles && IsMoved(was, before, maxFiles, i) && i - 1 in before && i in failures
    ensures MovedAround(was, before - {i}, maxFiles, i) && !NoneFails(was.Keys, failures, maxFiles, 0)
  {
    assert i - 1 in was;
  }

  /** A file is made of whole pieces, and of no more than one if it is over the size limit. */
  ghost predicate IsFile(file: Bytes, made: seq<Bytes>, maxSize: nat) {
    file == Flatten(made) && (|file| <= maxSize || |made| <= 1)
  }

  ghost predicate WithinLimit(files: map<nat, Bytes>, pieces: map<nat, seq<Bytes>>, maxSize: nat) {
    pieces.Keys == files.Keys && forall i :: i in files ==> IsFile(files[i], pieces[i], maxSize)
  }

  ghost predicate IsFrom(made: seq<Bytes>, log: seq<Bytes>) { forall x :: x in made ==> x in log }

  /** Every piece comes from the log. */
  ghost predicate AllFrom(pieces: map<nat, seq<Bytes>>, log: seq<Bytes>) {
    forall i :: i in pieces ==> IsFrom(pieces[i], log)
  }

  lemma {:induction false} ReadBackInBytes(files: map<nat, Bytes>, pieces: map<nat, seq<Bytes>>, n: nat, maxSize: nat)
    requires WithinLimit(files, pieces, maxSize) && forall i :: 0 <= i < n ==> i in files
    ensures ReadBack(files, n) == Flatten(ReadBack(pieces, n))
  {
    if n == 0 {
    } else {
      ReadBackInBytes(files, pieces, n - 1, maxSize);
      FlattenSum(pieces[n - 1], ReadBack(pieces, n - 1));
    }
  }

  /** A rotation loses at most the oldest file, and only when there are maxFiles + 1 of them. */
  lemma RotationKeepsRest<T>(was: map<nat, seq<T>>, now: map<nat, seq<T>>, maxFiles: nat, count: nat)
    requires Contiguous(was, count) && 0 < count <= maxFiles + 1 && IsRotated(was, now, maxFiles)
    ensures Contiguous(now, Min(count + 1, maxFiles + 1))
    ensures ReadBack(was, count)
            == (if count == maxFiles + 1 then was[maxFiles] else []) + ReadBack(now, Min(count + 1, maxFiles + 1))
  {
    ShiftedReadBack(was, now, maxFiles, Min(count, maxFiles));
    if count == maxFiles + 1 {
      assert ReadBack(was, count) == was[maxFiles] + ReadBack(was, maxFiles);
    } else {
      assert [] + ReadBack(was, count) == ReadBack(was, count);
    }
  }

  lemma {:induction false} ShiftedReadBack<T>(was: map<nat, seq<T>>, now: map<nat, seq<T>>, maxFiles: nat, n: nat)
    requires IsRotated(was, now, maxFiles) && n <= maxFiles && forall i :: 0 <= i < n ==> i in was
    ensures ReadBack(now, n + 1) == ReadBack(was, n)
  {
    if n == 0 {
      assert ReadBack(now, 1) == now[0] + [];
    } else {
      ShiftedReadBack(was, now, maxFiles, n - 1);
      assert ReadBack(now, n + 1) == now[n] + ReadBack(now, n);
    }
  }

  /** Writing to file 0 appends to what is read back. */
  lemma {:induction false} AppendToNewest<T>(files: map<nat, seq<T>>, n: nat, more: seq<T>)
    requires n > 0 && forall i :: 0 <= i < n ==> i in files
    ensures ReadBack(files[0 := files[0] + more], n) == ReadBack(files, n) + more
  {
    var after := files[0 := files[0] + more];
    if n == 1 {
      assert ReadBack(after, 0) == [] && ReadBack(files, 0) == [];
    } else {
      AppendToNewest(files, n - 1, more);
      assert files[n - 1] + (ReadBack(files, n - 1) + more) == files[n - 1] + ReadBack(files, n - 1) + more;
    }
  }

  // ---- The record of a sink ----

  /** What each file is made of; the log, which is the files found at opening, oldest first, and every message since;
      how many files there are, as long as no rotation has failed; the number of rotations; and whether none failed. */
  datatype History = History(pieces: map<nat, seq<Bytes>>, log: seq<Bytes>, count: nat, rotations: nat, intact: bool)

  /** The record after a rotation that stopped at a target, or at 0 when it is complete. */
  ghost function Rotated(h: History, left: set<nat>, maxFiles: nat, at: nat): History {
    History(Carried(h.pieces, left, at), h.log, Min(h.count + 1, maxFiles + 1), h.rotations + 1, h.intact && at == 0)
  }

  ghost function Written(h: History, message: Bytes): History
    requires 0 in h.pieces
  {
    h.(pieces := h.pieces[0 := h.pieces[0] + [message]], log := h.log + [message])
  }

  /** The record when a message is not written. */
  ghost function Lost(h: History, message: Bytes): History { h.(log := h.log + [message]) }

  /** Whatever failed: no more than maxFiles + 1 files, each made of whole pieces of the log and within the size limit
      unless it is a single piece. As long as no rotation has failed, they hold the newest part of the log. */
  ghost predicate IsKept(files: map<nat, Bytes>, h: History, maxSize: nat, maxFiles: nat) {
    && 0 in files && (forall i :: i in files ==> i <= maxFiles) && 0 < h.count <= maxFiles + 1
    && WithinLimit(files, h.pieces, maxSize) && AllFrom(h.pieces, h.log)
    && (h.intact ==> IsNewest(h, maxFiles))
  }

  /** Contiguous files that hold the newest part of the log, all of it while there is room for another file. */
  ghost predicate IsNewest(h: History, maxFiles: nat) {
    && Contiguous(h.pieces, h.count)
    && IsSuffix(ReadBack(h.pieces, h.count), h.log)
    && (h.count <= maxFiles ==> ReadBack(h.pieces, h.count) == h.log)
  }

  lemma RotationKeeps(was: map<nat, Bytes>, moved: map<nat, Bytes>, h: History, maxSize: nat, maxFiles: nat, at: nat)
    requires IsKept(was, h, maxSize, maxFiles)
    requires at <= maxFiles && MovedAround(was, moved, maxFiles, at) && at !in moved - {0}
    ensures IsKept(moved[0 := []], Rotated(h, moved[0 := []].Keys, maxFiles, at), maxSize, maxFiles)
  {
    var now := moved[0 := []];
    CarriedWithinLimit(was, moved, now, h.pieces, h.log, maxSize, maxFiles, at);
    if h.intact && at == 0 {
      assert IsRotated(was, now, maxFiles);
      RotationKeepsNewest(was, now, h, maxFiles);
    }
  }

  lemma CarriedWithinLimit(was: map<nat, Bytes>, moved: map<nat, Bytes>, now: map<nat, Bytes>,
                           made: map<nat, seq<Bytes>>, log: seq<Bytes>, maxSize: nat, maxFiles: nat, at: nat)
    requires WithinLimit(was, made, maxSize) && AllFrom(made, log)
    requires forall i :: i in was ==> i <= maxFiles
    requires at <= maxFiles && MovedAround(was, moved, maxFiles, at) && at !in moved - {0} && now == moved[0 := []]
    ensures WithinLimit(now, Carried(made, now.Keys, at), maxSize) && AllFrom(Carried(made, now.Keys, at), log)
    ensures forall i :: i in now ==> i <= maxFiles
  {
    var carried := Carried(made, now.Keys, at);
    forall i: nat | i in now && i > 0
      ensures Source(was.Keys, at, i) in was && now[i] == was[Source(was.Keys, at, i)] && i <= maxFiles
    {}
    assert Flatten([]) == [];
  }

  lemma RotationKeepsNewest(was: map<nat, Bytes>, now: map<nat, Bytes>, h: History, maxFiles: nat)
    requires IsNewest(h, maxFiles) && 0 < h.count <= maxFiles + 1
    requires h.pieces.Keys == was.Keys && IsRotated(was, now, maxFiles)
    ensures IsNewest(Rotated(h, now.Keys, maxFiles, 0), maxFiles)
  {
    var next := Rotated(h, now.Keys, maxFiles, 0);
    assert next.pieces.Keys == now.Keys;
    assert IsRotated(h.pieces, next.pieces, maxFiles);
    RotationKeepsRest(h.pieces, next.pieces, maxFiles, h.count);
    SuffixOfSuffix(ReadBack(next.pieces, next.count), ReadBack(h.pieces, h.count), h.log);
  }

  /** A message written to file 0 ends the log. */
  lemma WriteKeeps(files: map<nat, Bytes>, h: History, maxSize: nat, maxFiles: nat, message: Bytes)
    requires IsKept(files, h, maxSize, maxFiles)
    requires |files[0]| + |message| <= maxSize || h.pieces[0] == []
    ensures IsKept(files[0 := files[0] + message], Written(h, message), maxSize, maxFiles)
  {
    AppendedFile(files, h.pieces, maxSize, message);
    LogGrows(h.pieces, h.log, message);
    if h.intact {
      AppendToNewest(h.pieces, h.count, [message]);
      SuffixGrows(ReadBack(h.pieces, h.count), h.log, [message]);
    }
  }

  lemma AppendedFile(files: map<nat, Bytes>, pieces: map<nat, seq<Bytes>>, maxSize: nat, message: Bytes)
    requires WithinLimit(files, pieces, maxSize) && 0 in files
    requires |files[0]| + |message| <= maxSize || pieces[0] == []
    ensures WithinLimit(files[0 := files[0] + message], pieces[0 := pieces[0] + [message]], maxSize)
  {
    FlattenSum(pieces[0], [message]);
    assert Flatten([message]) == Flatten([]) + message;
  }

  /** A message that found no room: it is alone in the new file 0, or lost in a rotation that failed. */
  ghost predicate Rolled(was: map<nat, Bytes>, now: map<nat, Bytes>, message: Bytes, ok: bool, at: nat, maxFiles: nat) {
    && 0 in now && now[0] == (if ok then message else [])
    && if ok then IsRotated(was, now[0 := []], maxFiles) else IsStuck(was, now, maxFiles, at)
  }

  lemma StartedFile(was: map<nat, Bytes>, rotated: map<nat, Bytes>, message: Bytes, at: nat, maxFiles: nat)
    requires IsRotated(was, rotated, maxFiles)
    ensures Rolled(was, rotated[0 := rotated[0] + message], message, true, at, maxFiles)
  {
    var now := rotated[0 := rotated[0] + message];
    assert now[0 := []] == rotated;
  }

  lemma LossKeeps(files: map<nat, Bytes>, h: History, maxSize: nat, maxFiles: nat, message: Bytes)
    requires IsKept(files, h, maxSize, maxFiles) && !h.intact
    ensures IsKept(files, Lost(h, message), maxSize, maxFiles)
  {
    LogGrows(h.pieces, h.log, message);
  }

  lemma LogGrows(pieces: map<nat, seq<Bytes>>, log: seq<Bytes>, message: Bytes)
    requires AllFrom(pieces, log) && 0 in pieces
    ensures AllFrom(pieces, log + [message]) && AllFrom(pieces[0 := pieces[0] + [message]], log + [message])
  {
    forall i | i in pieces
      ensures IsFrom(pieces[i], log + [message])
    {
      assert IsFrom(pieces[i], log);
    }
    assert IsFrom(pieces[0] + [message], log + [message]);
  }

  // ---- What a run is to do ----

  /** The size of the current file after a run of messages, and how many rotations the run takes. */
  function SizeAfter(size: nat, messages: seq<Bytes>, maxSize: nat): (r: (nat, nat)) {
    if messages == [] then (size, 0) else
      var n := |messages| - 1;
      var (before, rotations) := SizeAfter(size, messages[..n], maxSize);
      if before + |messages[n]| > maxSize then (|messages[n]|, rotations + 1)
      else (before + |messages[n]|, rotations)
  }

  /** Nothing is rotated away as long as everything fits into the current file. */
  lemma {:induction false} NoRotationWhileItFits(size: nat, messages: seq<Bytes>, maxSize: nat)
    ensures SizeAfter(size, messages, maxSize).1 == 0 <==> messages == [] || size + |Flatten(messages)| <= maxSize
    ensures SizeAfter(size, messages, maxSize).1 == 0 ==>
              SizeAfter(size, messages, maxSize).0 == size + |Flatten(messages)|
  {
    if messages == [] {
    } else {
      NoRotationWhileItFits(size, messages[..|messages| - 1], maxSize);
    }
  }

  /** The files found at opening as pieces. */
  ghost function AsPieces(found: map<nat, Bytes>): map<nat, seq<Bytes>> { map i | i in found :: [found[i]] }

  /** Opening file 0 makes it if there is none. */
  function OpenedFiles(found: map<nat, Bytes>): (files: map<nat, Bytes>)
    ensures 0 in files
  {
    if 0 in found then found else found[0 := []]
  }

  ghost function Opened(found: map<nat, Bytes>, n: nat): History
    requires forall i :: 0 <= i < n ==> i in found
  {
    History(if n == 0 then map[0 := []] else AsPieces(found), ReadBack(AsPieces(found), n), Max(n, 1), 0, true)
  }

  lemma OpenedIsKept(found: map<nat, Bytes>, n: nat, maxSize: nat, maxFiles: nat)
    requires Contiguous(found, n) && n <= maxFiles + 1
    ensures IsKept(OpenedFiles(found), Opened(found, n), maxSize, maxFiles)
    ensures Flatten(Opened(found, n).log) == ReadBack(found, n)
    ensures OpenedFiles(found)[0] != [] <==> n > 0 && found[0] != []
  {
    FoundAsPieces(found, n, maxSize);
    AllRead(AsPieces(found), n);
    var h := Opened(found, n);
    if n == 0 { assert ReadBack(h.pieces, 1) == h.pieces[0] + []; }
  }

  lemma FoundAsPieces(found: map<nat, Bytes>, n: nat, maxSize: nat)
    requires forall i :: 0 <= i < n ==> i in found
    ensures WithinLimit(found, AsPieces(found), maxSize)
    ensures Flatten(ReadBack(AsPieces(found), n)) == ReadBack(found, n)
  {
    forall i | i in found
      ensures IsFile(found[i], AsPieces(found)[i], maxSize)
    {
      SinglePiece(found[i], maxSize);
    }
    ReadBackInBytes(found, AsPieces(found), n, maxSize);
  }

  lemma SinglePiece(file: Bytes, maxSize: nat)
    ensures IsFile(file, [file], maxSize)
  {
    assert Flatten([file]) == Flatten([]) + file;
  }

  lemma {:induction false} AllRead<T>(files: map<nat, seq<T>>, n: nat)
    requires forall i :: 0 <= i < n ==> i in files
    ensures forall i, x :: 0 <= i < n && x in files[i] ==> x in ReadBack(files, n)
  {
    if n == 0 {
    } else {
      AllRead(files, n - 1);
    }
  }

  /** The size limit in bytes: a file over it is one message, or as it was found at opening. */
  lemma OverLimitIsOnePiece(files: map<nat, Bytes>, h: History, maxSize: nat, maxFiles: nat)
    requires IsKept(files, h, maxSize, maxFiles)
    ensures forall i :: i in files ==> |files[i]| <= maxSize || files[i] in h.log
  {
    forall i | i in files && |files[i]| > maxSize
      ensures files[i] in h.log
    {
      var made := h.pieces[i];
      assert IsFile(files[i], made, maxSize) && IsFrom(made, h.log);
      assert made != [];
      SinglePiece(made[0], maxSize);
    }
  }

  lemma NewestInBytes(files: map<nat, Bytes>, h: History, maxSize: nat, maxFiles: nat)
    requires IsKept(files, h, maxSize, maxFiles) && h.intact
    ensures Contiguous(files, h.count) && IsSuffix(ReadBack(files, h.count), Flatten(h.log))
    ensures h.count <= maxFiles ==> ReadBack(files, h.count) == Flatten(h.log)
  {
    ReadBackInBytes(files, h.pieces, h.count, maxSize);
    SuffixOfBytes(ReadBack(h.pieces, h.count), h.log);
  }

  /** The sizes and records before and after a run. A run without a failing rename leaves the record intact if it was
      and takes the rotations that the sizes of the messages call for. */
  ghost predicate RunOf(size: nat, h: History, size': nat, h': History, messages: seq<Bytes>,
                        failures: seq<set<nat>>, maxSize: nat, maxFiles: nat) {
    && h'.log == h.log + messages
    && h'.rotations >= h.rotations && (h'.intact ==> h.intact)
    && h'.count == Min(h.count + (h'.rotations - h.rotations), maxFiles + 1)
    && ((forall targets :: targets in failures ==> targets == {}) ==>
          && h'.intact == h.intact
          && (size', h'.rotations - h.rotations) == SizeAfter(size, messages, maxSize))
  }

  lemma NoMessages(size: nat, h: History, maxSize: nat, maxFiles: nat)
    requires h.count <= maxFiles + 1
    ensures RunOf(size, h, size, h, [], [], maxSize, maxFiles)
  {
    assert h.log + [] == h.log;
  }

  /** What one message does to size and record. */
  ghost predicate StepOf(size: nat, h: History, size': nat, h': History, message: Bytes, ok: bool, maxSize: nat,
                         maxFiles: nat) {
    var rotates := if size + |message| > maxSize then 1 else 0;
    && h'.log == h.log + [message] && (h'.intact <==> h.intact && ok)
    && h'.rotations == h.rotations + rotates && h'.count == Min(h.count + rotates, maxFiles + 1)
    && (ok ==> size' == if rotates == 1 then |message| else size + |message|)
  }

  lemma OneMoreMessage(size: nat, h: History, size': nat, h': History, size'': nat, h'': History,
                       messages: seq<Bytes>, failures: seq<set<nat>>, k: nat, ok: bool, maxSize: nat, maxFiles: nat)
    requires k < |messages| == |failures|
    requires RunOf(size, h, size', h', messages[..k], failures[..k], maxSize, maxFiles)
    requires StepOf(size', h', size'', h'', messages[k], ok, maxSize, maxFiles) && (failures[k] == {} ==> ok)
    ensures RunOf(size, h, size'', h'', messages[..k + 1], failures[..k + 1], maxSize, maxFiles)
  {
    var upTo, fails := messages[..k + 1], failures[..k + 1];
    assert upTo[..k] == messages[..k] && upTo == messages[..k] + [messages[k]];
    Reassociated(h.log, messages[..k], [messages[k]]);
    if forall targets :: targets in fails ==> targets == {} {
      assert fails == failures[..k] + [failures[k]];
      assert failures[k] in fails;
      assert forall targets :: targets in failures[..k] ==> targets in fails;
    }
  }

  class RotatingFileSink {
    const maxSize: nat
    const maxFiles: nat
    var files: map<nat, Bytes>
    var currentSize: nat
    ghost var history: History

    ghost predicate Valid()
      reads this
    {
      IsKept(files, history, maxSize, maxFiles) && |files[0]| <= currentSize
    }

    /** Opens file 0 for appending. A rotation on opening leaves the old size in currentSize, so from then until the
        next rotation currentSize is not the size of file 0. */
    constructor (found: map<nat, Bytes>, n: nat, maxSize: nat, maxFiles: nat, rotateOnOpen: bool)
      requires Contiguous(found, n) && n <= maxFiles + 1
      ensures Valid() && this.maxSize == maxSize && this.maxFiles == maxFiles && history.intact
      ensures history.log == ReadBack(AsPieces(found), n) && Flatten(history.log) == ReadBack(found, n)
      ensures history.rotations == if rotateOnOpen && n > 0 && found[0] != [] then 1 else 0
      ensures history.count == Min(Max(n, 1) + history.rotations, maxFiles + 1)
      ensures currentSize == |files[0]| <==> history.rotations == 0
    {
      this.maxSize, this.maxFiles := maxSize, maxFiles;
      this.files := OpenedFiles(found);
      this.currentSize := |OpenedFiles(found)[0]|;
      this.history := Opened(found, n);
      new;
      OpenedIsKept(found, n, maxSize, maxFiles);
      if rotateOnOpen && currentSize > 0 {
        var ok, at := Rotate({});
      }
    }

    /** `rename_file_` with its retry: the target is removed first, even when the renames then fail. */
    method RenameFile(src: nat, target: nat, fails: bool) returns (ok: bool)
      requires src in files && src != target
      modifies this`files
      ensures ok == !fails
      ensures files == if fails then old(files) - {target} else (old(files) - {src})[target := old(files)[src]]
    {
      files := files - {target};
      if fails { return false; }
      files := files[target := files[src]] - {src};
      return true;
    }

    /** The loop of `rotate_`, from the highest index down. It stops at the target at when a rename fails. */
    method MoveFilesUp(failures: set<nat>) returns (ok: bool, ghost at: nat)
      requires forall i :: i in files ==> i <= maxFiles
      modifies this`files
      ensures ok <==> NoneFails(old(files.Keys), failures, maxFiles, 0)
      ensures ok ==> at == 0 && IsMoved(old(files), files, maxFiles, 0)
      ensures !ok ==> 0 < at <= maxFiles && at in failures && MovedAround(old(files), files, maxFiles, at)
                      && at !in files
    {
      ghost var was := files;
      var i: nat := maxFiles;
      while i > 0
        invariant i <= maxFiles && IsMoved(was, files, maxFiles, i) && NoneFails(was.Keys, failures, maxFiles, i)
      {
        ghost var before := files;
        if i - 1 in files {
          ok := RenameFile(i - 1, i, i in failures);
          if !ok {
            StuckHere(was, before, failures, maxFiles, i);
            return false, i;
          }
        }
        MovedOneMore(was, before, files, failures, maxFiles, i);
        i := i - 1;
      }
      return true, 0;
    }

    /** `rotate_`; failures holds the targets to which renaming fails twice. On failure the exception leaves file 0
        emptied and the move half done. */
    method Rotate(failures: set<nat>) returns (ok: bool, ghost at: nat)
      requires IsKept(files, history, maxSize, maxFiles)
      modifies this`files, this`currentSize, this`history
      ensures IsKept(files, history, maxSize, maxFiles) && files[0] == [] && history.pieces[0] == []
      ensures history == Rotated(old(history), files.Keys, maxFiles, at)
      ensures ok <==> NoneFails(old(files.Keys), failures, maxFiles, 0)
      ensures if ok then at == 0 && IsRotated(old(files), files, maxFiles) && currentSize == old(currentSize)
              else IsStuck(old(files), files, maxFiles, at) && currentSize == 0
    {
      ok, at := MoveFilesUp(failures);
      RotationKeeps(old(files), files, history, maxSize, maxFiles, at);
      ghost var moved := files;
      files := files[0 := []];
      history := Rotated(history, files.Keys, maxFiles, at);
      if !ok {
        currentSize := 0;
        assert MovedAround(old(files), moved, maxFiles, at);
      }
    }

    /** `sink_it_` with the formatted message. */
    method SinkIt(formatted: Bytes, failures: set<nat>) returns (ok: bool, ghost at: nat)
      requires Valid()
      modifies this`files, this`currentSize, this`history
      ensures Valid() && (failures == {} ==> ok)
      ensures StepOf(old(currentSize), old(history), currentSize, history, formatted, ok, maxSize, maxFiles)
      ensures old(currentSize) + |formatted| <= maxSize ==>
        ok && files == old(files)[0 := old(files)[0] + formatted] && history == Written(old(history), formatted)
      ensures old(currentSize) + |formatted| > maxSize ==>
        currentSize == |files[0]| && Rolled(old(files), files, formatted, ok, at, maxFiles)
    {
      currentSize := currentSize + |formatted|;
      ok, at := true, 0;
      if currentSize > maxSize {
        ok, at := MakeRoom(formatted, failures);
        if !ok { return; }
        StartedFile(old(files), files, formatted, at, maxFiles);
      }
      Write(formatted);
    }

    /** A rotation for a message that is over the limit; when it fails, the message is lost. */
    method MakeRoom(formatted: Bytes, failures: set<nat>) returns (ok: bool, ghost at: nat)
      requires IsKept(files, history, maxSize, maxFiles)
      modifies this`files, this`currentSize, this`history
      ensures IsKept(files, history, maxSize, maxFiles)
      ensures failures == {} ==> ok
      ensures if ok then
                && IsRotated(old(files), files, maxFiles) && history.pieces[0] == []
                && history == Rotated(old(history), files.Keys, maxFiles, 0) && currentSize == |formatted|
              else
                && Rolled(old(files), files, formatted, false, at, maxFiles) && at > 0 && currentSize == 0
                && history == Lost(Rotated(old(history), files.Keys, maxFiles, at), formatted)
    {
      ok, at := Rotate(failures);
      if ok {
        currentSize := |formatted|;
      } else {
        LossKeeps(files, history, maxSize, maxFiles, formatted);
        history := Lost(history, formatted);
      }
    }

    /** `file_helper::write`, to file 0. */
    method Write(formatted: Bytes)
      requires IsKept(files, history, maxSize, maxFiles)
      requires |files[0]| + |formatted| <= maxSize || history.pieces[0] == []
      modifies this`files, this`history
      ensures IsKept(files, history, maxSize, maxFiles) && history == Written(old(history), formatted)
      ensures files == old(files)[0 := old(files)[0] + formatted]
    {
      WriteKeeps(files, history, maxSize, maxFiles, formatted);
      files := files[0 := files[0] + formatted];
      history := Written(history, formatted);
    }

    /** Any run of messages; failures says to which targets the renames fail at each of them. */
    method Log(messages: seq<Bytes>, failures: seq<set<nat>>)
      requires Valid() && |failures| == |messages|
      modifies this`files, this`currentSize, this`history
      ensures Valid()
      ensures RunOf(old(currentSize), old(history), currentSize, history, messages, failures, maxSize, maxFiles)
      ensures forall i :: i in files ==> i <= maxFiles && (|files[i]| <= maxSize || files[i] in history.log)
      ensures currentSize == |files[0]| <==>
              old(currentSize == |files[0]|) || history.rotations > old(history.rotations)
      ensures history.intact ==> IsSuffix(ReadBack(files, history.count), Flatten(history.log))
      ensures history.intact && history.count <= maxFiles ==>
              ReadBack(files, history.count) == Flatten(history.log)
    {
      ghost var h, size, sound := history, currentSize, currentSize == |files[0]|;
      var k := 0;
      NoMessages(size, h, maxSize, maxFiles);
      while k < |messages|
        invariant k <= |messages| && Valid()
        invariant RunOf(size, h, currentSize, history, messages[..k], failures[..k], maxSize, maxFiles)
        invariant currentSize == |files[0]| <==> sound || history.rotations > h.rotations
      {
        ghost var before, held := history, currentSize;
        var ok, at := SinkIt(messages[k], failures[k]);
        OneMoreMessage(size, h, held, before, currentSize, history, messages, failures, k, ok, maxSize, maxFiles);
        k := k + 1;
      }
      assert messages[..k] == messages && failures[..k] == failures;
      OverLimitIsOnePiece(files, history, maxSize, maxFiles);
      if history.intact { NewestInBytes(files, history, maxSize, maxFiles); }
    }
  }
}
