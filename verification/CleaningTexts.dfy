/** What cleaning does to a single tree, told from the texts of its frame. */
module CleaningTexts {
  import opened Frames
  import opened Strings
  import opened Trees
  import opened Cleaning

  /** `w` stands somewhere in `u`. */
  ghost predicate Has(u: string, w: string) {
    exists a, b :: u == a + w + b
  }

  lemma OccursIsHas(u: string, w: string)
    ensures Occurs(u, w) <==> Has(u, w)
  {
    if Occurs(u, w) {
      var i :| 0 <= i <= |u| - |w| && OccursAt(u, w, i);
      assert u == u[..i] + u[i..i + |w|] + u[i + |w|..];
    }
    if Has(u, w) {
      var a, b :| u == a + w + b;
      assert u[|a|..|a| + |w|] == w;
      assert OccursAt(u, w, |a|);
    }
  }

  /** A frame of `StackTrace.cpp` whose function has one of three names in it or no bracket. */
  ghost predicate FromHere(f: Frame) {
    var p, u := CStr(f.file), CStr(f.func);
    && p == "StackTrace.cpp"
    && (Has(u, "_callstack_signal_handler") || Has(u, "getGlobalCallStacks") || Has(u, "backtrace") || '(' !in u)
  }

  ghost predicate ReadsStream(f: Frame) {
    Has(CStr(f.obj), "libc.so") && Has(CStr(f.func), "fgets")
  }

  lemma BracketIsChar(u: string)
    ensures Has(u, "(") <==> '(' in u
  {
    if '(' in u {
      var i :| 0 <= i < |u| && u[i] == '(';
      assert u == u[..i] + "(" + u[i + 1..];
    }
  }

  lemma TextTests(f: Frame)
    ensures Contributor(f) <==> FromHere(f)
    ensures LibcFgets(f) <==> ReadsStream(f)
  {
    hide Occurs, Has;
    var u := CStr(f.func);
    OccursIsHas(u, "_callstack_signal_handler");
    OccursIsHas(u, "getGlobalCallStacks");
    OccursIsHas(u, "backtrace");
    OccursIsHas(u, "(");
    BracketIsChar(u);
    OccursIsHas(CStr(f.obj), "libc.so");
    OccursIsHas(u, "fgets");
  }

  lemma CleanNothing(keep: Frame -> bool)
    ensures Clean(keep, []) == []
  {
  }

  lemma AbsorbFirst(keep: Frame -> bool, y: Tree)
    ensures Absorb(keep, [], y) == [y]
  {
  }

  lemma CleanIs(keep: Frame -> bool, kids: seq<Tree>)
    ensures Clean(keep, kids) == CleanLoop(keep, [], kids) && CleanLoop(keep, kids, []) == kids
  {
  }

  /** What happens to a single tree: a frame from here goes with all that is below it; below a libc `fgets` all
      goes; then an unwanted frame goes if nothing is left below it, or leaves the one tree below it, which keeps
      its own count; any other stays, over what is left after cleaning. */
  lemma {:induction false} CleanSingle(keep: Frame -> bool, x: Tree)
    ensures var below := if ReadsStream(x.frame) then [] else x.kids;
      Clean(keep, [x]) ==
        if FromHere(x.frame) then []
        else if keep(x.frame) || |below| > 1 then [Node(x.n, x.frame, Clean(keep, below))]
        else if below == [] then []
        else Clean(keep, [below[0]])
  {
    TextTests(x.frame);
    hide Contributor, LibcFgets, FromHere, ReadsStream, Clean, CleanLoop, Absorb;
    var y := Trim(x);
    assert [x][1..] == [];
    Step(keep, [], [x]);
    CleanIs(keep, [x]);
    CleanIs(keep, []);
    CleanIs(keep, y.kids);
    AbsorbFirst(keep, Node(y.n, y.frame, Clean(keep, y.kids)));
    CleanIs(keep, [Node(y.n, y.frame, Clean(keep, y.kids))]);
    if Judge(keep, x).Splice? {
      assert [y.kids[0]] + [] == [y.kids[0]];
      CleanIs(keep, [y.kids[0]]);
    }
  }

  /** A wanted leaf goes exactly when its frame is from here. */
  lemma {:induction false} LeafFate(keep: Frame -> bool, n: int, f: Frame)
    requires keep(f)
    ensures Clean(keep, [Node(n, f, [])]) == if FromHere(f) then [] else [Node(n, f, [])]
  {
    hide FromHere, ReadsStream, Clean;
    CleanSingle(keep, Node(n, f, []));
    CleanNothing(keep);
  }

  // ---- Instances ----

  function TextFrame(obj: string, file: string, func: string): Frame
    requires |obj| <= OBJECT_SIZE && |file| <= FILE_SIZE && |func| <= FUNCTION_SIZE
  {
    EmptyFrame().(obj := obj + Zeros(OBJECT_SIZE - |obj|), file := file + Zeros(FILE_SIZE - |file|),
                  func := func + Zeros(FUNCTION_SIZE - |func|))
  }

  lemma {:induction false} FrameTexts(obj: string, file: string, func: string)
    requires |obj| <= OBJECT_SIZE && |file| <= FILE_SIZE && |func| <= FUNCTION_SIZE
    requires NUL !in obj && NUL !in file && NUL !in func
    ensures var f := TextFrame(obj, file, func); CStr(f.obj) == obj && CStr(f.file) == file && CStr(f.func) == func
  {
    CStrOf(obj, Zeros(OBJECT_SIZE - |obj|));
    CStrOf(file, Zeros(FILE_SIZE - |file|));
    CStrOf(func, Zeros(FUNCTION_SIZE - |func|));
    hide CStr;
  }

  /** A text with a character that `u` lacks is not in `u`. */
  lemma Lacking(u: string, w: string, c: char)
    requires c in w && c !in u
    ensures !Has(u, w)
  {
    forall a, b ensures u != a + w + b {
      assert c in a + w + b by { var i :| 0 <= i < |w| && w[i] == c; assert (a + w + b)[|a| + i] == c; }
    }
  }

  function Any(f: Frame): bool {
    true
  }

  function Named(obj: string, file: string, func: string, kids: seq<Tree>): Tree
    requires |obj| <= OBJECT_SIZE && |file| <= FILE_SIZE && |func| <= FUNCTION_SIZE
  {
    Node(1, TextFrame(obj, file, func), kids)
  }

  lemma {:induction false} Fate(file: string, func: string)
    requires |file| <= FILE_SIZE && |func| <= FUNCTION_SIZE && NUL !in file && NUL !in func
    ensures Clean(Any, [Named([], file, func, [])]) ==
      if file == "StackTrace.cpp"
         && (Has(func, "_callstack_signal_handler") || Has(func, "getGlobalCallStacks") || Has(func, "backtrace")
             || '(' !in func)
      then [] else [Named([], file, func, [])]
  {
    hide Clean, Has, TextFrame, CStr;
    FrameTexts([], file, func);
    LeafFate(Any, 1, TextFrame([], file, func));
  }

  lemma Inside(a: string, w: string, b: string)
    ensures Has(a + w + b, w)
  {
  }

  // One frame for each of the four tests, one that passes none of them, and one from another file.

  lemma SignalHandlerGoes()
    ensures Clean(Any, [Named([], "StackTrace.cpp", "_callstack_signal_handler(int)", [])]) == []
  {
    hide Clean, Named, Has;
    assert [] + "_callstack_signal_handler" + "(int)" == "_callstack_signal_handler(int)";
    Inside([], "_callstack_signal_handler", "(int)");
    Fate("StackTrace.cpp", "_callstack_signal_handler(int)");
  }

  lemma CollectorGoes()
    ensures Clean(Any, [Named([], "StackTrace.cpp", "getGlobalCallStacks()", [])]) == []
  {
    hide Clean, Named, Has;
    assert [] + "getGlobalCallStacks" + "()" == "getGlobalCallStacks()";
    Inside([], "getGlobalCallStacks", "()");
    Fate("StackTrace.cpp", "getGlobalCallStacks()");
  }

  lemma BacktraceGoes()
    ensures Clean(Any, [Named([], "StackTrace.cpp", "backtrace(int)", [])]) == []
  {
    hide Clean, Named, Has;
    assert [] + "backtrace" + "(int)" == "backtrace(int)";
    Inside([], "backtrace", "(int)");
    Fate("StackTrace.cpp", "backtrace(int)");
  }

  lemma NoBracketGoes()
    ensures Clean(Any, [Named([], "StackTrace.cpp", "start", [])]) == []
  {
    hide Clean, Named, Has;
    Fate("StackTrace.cpp", "start");
  }

  lemma MonitorNoHandler()
    ensures !Has("runGlobalMonitorThread()", "_callstack_signal_handler")
  {
    hide Has;
    assert "_callstack_signal_handler"[0] == '_';
    Lacking("runGlobalMonitorThread()", "_callstack_signal_handler", '_');
  }

  lemma MonitorNoCollector()
    ensures !Has("runGlobalMonitorThread()", "getGlobalCallStacks")
  {
    hide Has;
    assert "getGlobalCallStacks"[9] == 'C';
    Lacking("runGlobalMonitorThread()", "getGlobalCallStacks", 'C');
  }

  lemma MonitorNoBacktrace()
    ensures !Has("runGlobalMonitorThread()", "backtrace")
  {
    hide Has;
    assert "backtrace"[3] == 'k';
    Lacking("runGlobalMonitorThread()", "backtrace", 'k');
  }

  lemma MonitorStays()
    ensures var x := Named([], "StackTrace.cpp", "runGlobalMonitorThread()", []); Clean(Any, [x]) == [x]
  {
    hide Clean, Named, Has;
    assert "runGlobalMonitorThread()"[22] == '(';
    MonitorNoHandler();
    MonitorNoCollector();
    MonitorNoBacktrace();
    Fate("StackTrace.cpp", "runGlobalMonitorThread()");
  }

  lemma OtherFileStays()
    ensures var x := Named([], "main.cpp", "start", []); Clean(Any, [x]) == [x]
  {
    hide Clean, Named, Has;
    Fate("main.cpp", "start");
  }

  /** Children of a wanted frame go exactly with both texts. */
  lemma {:induction false} Below(obj: string, func: string)
    requires |obj| <= OBJECT_SIZE && |func| <= FUNCTION_SIZE && NUL !in obj && NUL !in func
    ensures var k := Named([], "main.cpp", "main()", []);
      Clean(Any, [Named(obj, [], func, [k])]) ==
        [Named(obj, [], func, if Has(obj, "libc.so") && Has(func, "fgets") then [] else [k])]
  {
    hide Clean, Has, TextFrame, CStr;
    var f := TextFrame(obj, [], func);
    var k := Named([], "main.cpp", "main()", []);
    FrameTexts(obj, [], func);
    Fate("main.cpp", "main()");
    CleanSingle(Any, Node(1, f, [k]));
    CleanNothing(Any);
  }

  // One frame with both texts, and one with each of them.

  lemma FgetsTrimmed()
    ensures Clean(Any, [Named("libc.so.6", [], "fgets", [Named([], "main.cpp", "main()", [])])]) ==
      [Named("libc.so.6", [], "fgets", [])]
  {
    hide Clean, Named, Has;
    assert [] + "libc.so" + ".6" == "libc.so.6" && [] + "fgets" + [] == "fgets";
    Inside([], "libc.so", ".6");
    Inside([], "fgets", []);
    Below("libc.so.6", "fgets");
  }

  lemma PutsNotTrimmed()
    ensures var x := Named("libc.so.6", [], "puts", [Named([], "main.cpp", "main()", [])]); Clean(Any, [x]) == [x]
  {
    hide Clean, Named, Has;
    assert "fgets"[0] == 'f';
    Lacking("puts", "fgets", 'f');
    Below("libc.so.6", "puts");
  }

  lemma OtherObjectNotTrimmed()
    ensures var x := Named("libm.so.6", [], "fgets", [Named([], "main.cpp", "main()", [])]); Clean(Any, [x]) == [x]
  {
    hide Clean, Named, Has;
    assert "libc.so"[3] == 'c';
    Lacking("libm.so.6", "libc.so", 'c');
    Below("libm.so.6", "fgets");
  }

  /** A child that takes the place of an unwanted frame keeps its own count, and so on down. */
  lemma {:induction false} SplicedCount(keep: Frame -> bool, n: int, f: Frame, m: int, g: Frame)
    requires !keep(f) && keep(g) && !FromHere(f) && !ReadsStream(f) && !FromHere(g)
    ensures Clean(keep, [Node(n, f, [Node(m, g, [])])]) == [Node(m, g, [])]
  {
    hide Clean, FromHere, ReadsStream;
    CleanSingle(keep, Node(n, f, [Node(m, g, [])]));
    LeafFate(keep, m, g);
  }
}
