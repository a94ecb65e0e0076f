/** ftntoss processes side by side: a state machine of everything that happens
    between run_with_lock()'s O_EXCL open and its unlink, one file operation a
    step, with processes dying anywhere. */
module FtnLock {
  import opened CText

  type Pid = nat
  type Conf = nat
  type Area = nat

  /** Where a process is. All but Outside and Dead run under the lock. */
  datatype Pc =
    | Outside
    | Opened                                                // lock file created, pid not yet written
    | Inside
    | ConfRead(conf: Conf, table: map<Conf, nat>)           // the new CONF_FILE, not yet renamed
    | Numbered(conf: Conf, text: nat)                       // renamed; the text file is next
    | Written(conf: Conf, text: nat, parent: nat)           // text written; the comment link is next
    | Listed(area: Area, name: string)                      // spool listed; the .msg file is next
    | Dead

  predicate Holding(pc: Pc) {
    !pc.Outside? && !pc.Dead?
  }

  datatype World = World(
    lockFile: bool,
    procs: map<Pid, Pc>,
    lastText: map<Conf, nat>,                 // CONF_FILE
    texts: map<(Conf, nat), string>,          // one file per text
    spool: map<(Area, string), string>)       // the .msg files, by file name

  // ---------- next_msg_path() ----------

  /** The number of a listed name, or none: digits, then exactly ".msg" or ".MSG". */
  function ListedNumber(name: string): Option<int> {
    var n := StrtolLen(name);
    if name == "" || name[0] == '.' || n == 0 || (name[n..] != ".msg" && name[n..] != ".MSG") then None
    else Some(Strtol(name))
  }

  function MsgName(n: nat): string {
    Decimal(n) + ".msg"
  }

  /** `n` is the number next_msg_path() picks for a directory holding `names`. */
  ghost predicate IsNextNumber(names: set<string>, n: nat) {
    && n >= 2
    && (forall name :: name in names && ListedNumber(name).Some? ==> ListedNumber(name).value < n)
    && (n == 2 || exists name :: name in names && ListedNumber(name) == Some(n - 1))
  }

  /** A listed name by its parts. */
  predicate IsListed(name: string, spaces: string, sign: string, digits: string, ext: string, k: int) {
    && AllSpace(spaces) && sign in {"", "+", "-"} && digits != "" && AllDigits(digits) && ext in {".msg", ".MSG"}
    && name == spaces + sign + (digits + ext) && (k == if sign == "-" then 0 - NatOf(digits) else NatOf(digits))
  }

  /** What counts as a .msg file, and its number. */
  lemma ListedIff(name: string, k: int)
    ensures ListedNumber(name) == Some(k) <==>
            exists spaces, sign, digits, ext :: IsListed(name, spaces, sign, digits, ext, k)
  {
    if ListedNumber(name) == Some(k) {
      ListedParts(name);
    }
    forall spaces, sign, digits, ext | IsListed(name, spaces, sign, digits, ext, k) ensures ListedNumber(name) ==
      Some(k) {
      PartsListed(name, spaces, sign, digits, ext, k);
    }
  }

  lemma ListedParts(name: string)
    requires ListedNumber(name).Some?
    ensures exists spaces, sign, digits, ext :: IsListed(name, spaces, sign, digits, ext, ListedNumber(name).value)
  {
    hide Strtol, StrtolLen, NatOf, AllSpace, AllDigits;
    var spaces, sign, digits, ext := NumberParts(name);
    StrtolOf(spaces, sign, digits, ext);
    assert name[|spaces + sign + digits|..] == ext;
    assert IsListed(name, spaces, sign, digits, ext, ListedNumber(name).value);
  }

  lemma PartsListed(name: string, spaces: string, sign: string, digits: string, ext: string, k: int)
    requires IsListed(name, spaces, sign, digits, ext, k)
    ensures ListedNumber(name) == Some(k)
  {
    hide Strtol, StrtolLen, NatOf, IsSpace;
    StrtolOf(spaces, sign, digits, ext);
    SpaceIff('.');
    var head := spaces + sign + digits;
    assert name == head + ext && name[|head|..] == ext && name[0] == head[0];
    assert head[0] == if spaces != "" then spaces[0] else if sign != "" then sign[0] else digits[0];
  }

  /** The number picked is 2 when no listed number is above 1, else one more than the highest. */
  lemma NextNumberIs(names: set<string>, n: nat)
    requires IsNextNumber(names, n)
    ensures n == 2 <==> forall name :: name in names && ListedNumber(name).Some? ==> ListedNumber(name).value <= 1
    ensures n != 2 ==> n > 2 && exists name :: name in names && ListedNumber(name) == Some(n - 1)
    ensures forall name :: name in names && ListedNumber(name).Some? ==> ListedNumber(name).value <= n - 1
  {
  }

  method NextMsgNumber(dir: seq<string>) returns (n: nat)
    ensures IsNextNumber((set name | name in dir), n)
  {
    hide ListedNumber;
    var maxnum := 1;
    for i := 0 to |dir|
      invariant maxnum >= 1
      invariant forall j :: 0 <= j < i && ListedNumber(dir[j]).Some? ==> ListedNumber(dir[j]).value <= maxnum
      invariant maxnum == 1 || exists j :: 0 <= j < i && ListedNumber(dir[j]) == Some(maxnum)
    {
      var number := ListedNumber(dir[i]);
      if number.Some? && number.value > maxnum {
        maxnum := number.value;
      }
    }
    n := maxnum + 1;
    if n != 2 {
      var j :| 0 <= j < |dir| && ListedNumber(dir[j]) == Some(maxnum);
      assert dir[j] in (set name | name in dir);
    }
  }

  /** The picked number names no file of the directory. */
  lemma NextNameIsNew(names: set<string>, n: nat)
    requires IsNextNumber(names, n)
    ensures MsgName(n) !in names
  {
    StrtolOfSigned(n, ".msg");
    hide StrtolLen, Strtol;
    var name := MsgName(n);
    assert name == Signed(n) + ".msg" && name[|Signed(n)|..] == ".msg" && IsDigit(name[0]);
    assert ListedNumber(name) == Some(n);
  }

  // ---------- Steps ----------

  datatype Step =
    | Start(p: Pid)
    | TryLock(p: Pid)
    | WritePid(p: Pid, ok: bool)
    | ReadConf(p: Pid, conf: Conf)
    | RenameConf(p: Pid)
    | WriteText(p: Pid, content: string, parent: nat)
    | AppendLink(p: Pid, link: string)
    | ListSpool(p: Pid, area: Area, n: nat)
    | WriteMsg(p: Pid, content: string)
    | Fail(p: Pid)
    | Release(p: Pid)
    | Die(p: Pid)
    | RemoveStaleLock

  function SpoolNames(w: World, area: Area): set<string> {
    set key | key in w.spool && key.0 == area :: key.1
  }

  /** Whether `step` can happen in `w`. A comment's parent is an older text; a lock
      file is removed by hand only when no process is active. */
  ghost predicate Enabled(w: World, step: Step) {
    match step
    case Start(p) => p !in w.procs
    case TryLock(p) => p in w.procs && w.procs[p].Outside?
    case WritePid(p, ok) => p in w.procs && w.procs[p].Opened?
    case ReadConf(p, conf) => p in w.procs && w.procs[p].Inside? && conf in w.lastText
    case RenameConf(p) => p in w.procs && w.procs[p].ConfRead? && w.procs[p].conf in w.procs[p].table
    case WriteText(p, content, parent) => p in w.procs && w.procs[p].Numbered? && parent < w.procs[p].text
    case AppendLink(p, link) => p in w.procs && w.procs[p].Written?
    case ListSpool(p, area, n) => p in w.procs && w.procs[p].Inside? && IsNextNumber(SpoolNames(w, area), n)
    case WriteMsg(p, content) => p in w.procs && w.procs[p].Listed?
    case Fail(p) => p in w.procs && Holding(w.procs[p]) && !w.procs[p].Opened?
    case Release(p) => p in w.procs && w.procs[p].Inside?
    case Die(p) => p in w.procs
    case RemoveStaleLock => forall p :: p in w.procs ==> !Holding(w.procs[p])
  }

  function At(w: World, p: Pid, pc: Pc): World {
    w.(procs := w.procs[p := pc])
  }

  /** The world after an enabled step. open(O_EXCL) fails on an existing lock file;
      fopen("w") truncates what is there; fopen("a") creates what is not. */
  function After(w: World, step: Step): World
    requires Enabled(w, step)
  {
    match step
    case Start(p) => At(w, p, Outside)
    case TryLock(p) => if w.lockFile then w else At(w, p, Opened).(lockFile := true)
    case WritePid(p, ok) => if ok then At(w, p, Inside) else At(w, p, Outside).(lockFile := false)
    case ReadConf(p, conf) => At(w, p, ConfRead(conf, w.lastText[conf := w.lastText[conf] + 1]))
    case RenameConf(p) =>
      var pc := w.procs[p];
      At(w, p, Numbered(pc.conf, pc.table[pc.conf])).(lastText := pc.table)
    case WriteText(p, content, parent) =>
      var pc := w.procs[p];
      At(w, p, Written(pc.conf, pc.text, parent)).(texts := w.texts[(pc.conf, pc.text) := content])
    case AppendLink(p, link) =>
      var pc := w.procs[p];
      var key := (pc.conf, pc.parent);
      if pc.parent == 0 then At(w, p, Inside)
      else At(w, p, Inside).(texts := w.texts[key := (if key in w.texts then w.texts[key] else "") + link])
    case ListSpool(p, area, n) => At(w, p, Listed(area, MsgName(n)))
    case WriteMsg(p, content) =>
      var pc := w.procs[p];
      At(w, p, Inside).(spool := w.spool[(pc.area, pc.name) := content])
    case Fail(p) => At(w, p, Inside)
    case Release(p) => At(w, p, Outside).(lockFile := false)
    case Die(p) => At(w, p, Dead)
    case RemoveStaleLock => w.(lockFile := false)
  }

  // ---------- The invariant ----------

  /** At most one process is inside, and whoever is inside left the lock file there. */
  ghost predicate Exclusive(w: World) {
    && (forall p, q :: p in w.procs && q in w.procs && Holding(w.procs[p]) && Holding(w.procs[q]) ==> p == q)
    && (forall p :: p in w.procs && Holding(w.procs[p]) ==> w.lockFile)
  }

  /** No text lies above its conference's last_text. */
  ghost predicate NumbersCovered(w: World) {
    forall key :: key in w.texts ==> key.0 in w.lastText && key.1 <= w.lastText[key.0]
  }

  /** What a process inside relies on is still so. */
  ghost predicate PcRight(w: World, pc: Pc) {
    match pc
    case ConfRead(c, table) => c in w.lastText && table == w.lastText[c := w.lastText[c] + 1]
    case Numbered(c, t) => c in w.lastText && w.lastText[c] == t && (c, t) !in w.texts
    case Written(c, t, parent) => c in w.lastText && parent < t <= w.lastText[c]
    case Listed(area, name) => (area, name) !in w.spool
    case _ => true
  }

  ghost predicate Inv(w: World) {
    && Exclusive(w) && NumbersCovered(w)
    && forall p :: p in w.procs ==> PcRight(w, w.procs[p])
  }

  predicate HoldsLock(w: World, p: Pid) {
    p in w.procs && Holding(w.procs[p])
  }

  /** A step moves one process. It gets inside only where no lock file was, and the
      lock file goes only when it leaves. */
  lemma OneMoves(w: World, step: Step)
    requires Enabled(w, step) && !step.RemoveStaleLock?
    ensures var w' := After(w, step);
            && step.p in w'.procs && w'.procs == w.procs[step.p := w'.procs[step.p]]
            && (HoldsLock(w', step.p) && !HoldsLock(w, step.p) ==> !w.lockFile && w'.lockFile)
            && (HoldsLock(w', step.p) && w.lockFile ==> w'.lockFile)
            && (w.lockFile && !w'.lockFile ==> HoldsLock(w, step.p) && !HoldsLock(w', step.p))
  {
    hide IsNextNumber, MsgName;
  }

  lemma StepKeepsExclusive(w: World, step: Step)
    requires Inv(w) && Enabled(w, step)
    ensures Exclusive(After(w, step))
  {
    hide NumbersCovered, PcRight;
    var w' := After(w, step);
    if step.RemoveStaleLock? {
      assert w'.procs == w.procs;
    } else {
      OneMoves(w, step);
      hide After, Enabled;
      OnlyHolder(w, w', step.p);
    }
  }

  lemma OnlyHolder(w: World, w': World, p: Pid)
    requires Exclusive(w) && p in w'.procs && w'.procs == w.procs[p := w'.procs[p]]
    requires HoldsLock(w', p) && !HoldsLock(w, p) ==> !w.lockFile && w'.lockFile
    requires HoldsLock(w', p) && w.lockFile ==> w'.lockFile
    requires w.lockFile && !w'.lockFile ==> HoldsLock(w, p) && !HoldsLock(w', p)
    ensures Exclusive(w')
  {
    forall q | q in w'.procs && q != p ensures q in w.procs && w'.procs[q] == w.procs[q] {
    }
  }

  lemma StepKeepsNumbers(w: World, step: Step)
    requires Inv(w) && Enabled(w, step)
    ensures NumbersCovered(After(w, step))
  {
    hide IsNextNumber, MsgName, Exclusive;
    if step.RenameConf? || step.WriteText? || step.AppendLink? {
      assert PcRight(w, w.procs[step.p]);
    }
  }

  /** The process that moves finds what it relies on next. */
  lemma StepKeepsMover(w: World, step: Step)
    requires Inv(w) && Enabled(w, step) && !step.RemoveStaleLock?
    ensures step.p in After(w, step).procs && PcRight(After(w, step), After(w, step).procs[step.p])
  {
    hide Exclusive, IsNextNumber, SpoolNames, MsgName;
    if step.p in w.procs {
      assert PcRight(w, w.procs[step.p]);
    }
    if step.ListSpool? {
      NewInSpool(w, step.area, step.n);
    }
  }

  lemma NewInSpool(w: World, area: Area, n: nat)
    requires IsNextNumber(SpoolNames(w, area), n)
    ensures (area, MsgName(n)) !in w.spool
  {
    hide IsNextNumber, MsgName;
    NextNameIsNew(SpoolNames(w, area), n);
    forall key | key in w.spool && key.0 == area ensures key.1 in SpoolNames(w, area) {
    }
  }

  /** Nobody else can be affected: nobody else is inside. */
  lemma StepKeepsOthers(w: World, step: Step, q: Pid)
    requires Inv(w) && Enabled(w, step) && q in After(w, step).procs && (step.RemoveStaleLock? || q != step.p)
    ensures PcRight(After(w, step), After(w, step).procs[q])
  {
    hide IsNextNumber, MsgName, NumbersCovered, After, Enabled, PcRight;
    var w' := After(w, step);
    OthersStay(w, step, q);
    if !HoldsLock(w, q) {
      NothingReliedOn(w', w.procs[q]);
    } else {
      OutsidersChangeNothing(w, step);
      SameFilesRight(w, w', w.procs[q]);
    }
  }

  lemma OthersStay(w: World, step: Step, q: Pid)
    requires Enabled(w, step) && q in After(w, step).procs && (step.RemoveStaleLock? || q != step.p)
    ensures q in w.procs && After(w, step).procs[q] == w.procs[q]
  {
    if !step.RemoveStaleLock? {
      OneMoves(w, step);
      hide After, Enabled;
    }
  }

  lemma NothingReliedOn(w: World, pc: Pc)
    requires !Holding(pc)
    ensures PcRight(w, pc)
  {
  }

  /** Only a process under the lock changes a file. */
  lemma OutsidersChangeNothing(w: World, step: Step)
    requires Enabled(w, step) && (step.RemoveStaleLock? || !HoldsLock(w, step.p))
    ensures var w' := After(w, step); w'.lastText == w.lastText && w'.texts == w.texts && w'.spool == w.spool
  {
    hide IsNextNumber, MsgName;
  }

  lemma SameFilesRight(w: World, w': World, pc: Pc)
    requires PcRight(w, pc) && w'.lastText == w.lastText && w'.texts == w.texts && w'.spool == w.spool
    ensures PcRight(w', pc)
  {
  }

  lemma StepKeepsInv(w: World, step: Step)
    requires Inv(w) && Enabled(w, step)
    ensures Inv(After(w, step))
  {
    hide Exclusive, NumbersCovered, PcRight, Enabled, After;
    StepKeepsExclusive(w, step);
    StepKeepsNumbers(w, step);
    forall q | q in After(w, step).procs ensures PcRight(After(w, step), After(w, step).procs[q]) {
      if step.RemoveStaleLock? || q != step.p {
        StepKeepsOthers(w, step, q);
      } else {
        StepKeepsMover(w, step);
      }
    }
  }

  // ---------- What no step destroys ----------

  /** Texts only grow at their end, spool files stay as they are, numbers only rise. */
  ghost predicate Preserves(w: World, w': World) {
    && (forall key :: key in w.texts ==> key in w'.texts && w.texts[key] <= w'.texts[key])
    && (forall key :: key in w.spool ==> key in w'.spool && w'.spool[key] == w.spool[key])
    && (forall c :: c in w.lastText ==> c in w'.lastText && w.lastText[c] <= w'.lastText[c])
  }

  lemma StepPreserves(w: World, step: Step)
    requires Inv(w) && Enabled(w, step)
    ensures Preserves(w, After(w, step))
  {
    hide IsNextNumber, MsgName, Exclusive, NumbersCovered;
    if !step.RemoveStaleLock? && !step.Start? {
      assert PcRight(w, w.procs[step.p]);
    }
  }

  // ---------- Whole runs ----------

  /** No process yet; some texts and spool files may be there. */
  ghost predicate Init(w: World) {
    w.procs == map[] && NumbersCovered(w)
  }

  ghost predicate Run(w: World, steps: seq<Step>)
    decreases |steps|
  {
    steps == [] || (Enabled(w, steps[0]) && Run(After(w, steps[0]), steps[1..]))
  }

  ghost function End(w: World, steps: seq<Step>): World
    requires Run(w, steps)
    decreases |steps|
  {
    if steps == [] then w else End(After(w, steps[0]), steps[1..])
  }

  lemma {:induction false} RunKeeps(w: World, steps: seq<Step>)
    requires Inv(w) && Run(w, steps)
    ensures Inv(End(w, steps)) && Preserves(w, End(w, steps))
    decreases |steps|
  {
    hide Inv, Enabled, After;
    if steps != [] {
      StepKeepsInv(w, steps[0]);
      StepPreserves(w, steps[0]);
      RunKeeps(After(w, steps[0]), steps[1..]);
      PreservesTransitive(w, After(w, steps[0]), End(w, steps));
    } else {
      PreservesItself(w);
    }
  }

  lemma PreservesItself(w: World)
    ensures Preserves(w, w)
  {
  }

  lemma PreservesTransitive(a: World, b: World, c: World)
    requires Preserves(a, b) && Preserves(b, c)
    ensures Preserves(a, c)
  {
  }

  /** Under every interleaving, at every moment: one process inside at most, every
      text within last_text, and nothing written before is lost or overwritten. */
  lemma InterleavingsSafe(w: World, before: seq<Step>, after: seq<Step>)
    requires Init(w) && Run(w, before) && Run(End(w, before), after)
    ensures var mid := End(w, before);
            Exclusive(mid) && NumbersCovered(mid) && Preserves(mid, End(mid, after))
  {
    assert Inv(w);
    RunKeeps(w, before);
    RunKeeps(End(w, before), after);
  }

  // ---------- When the lock is free ----------

  /** Nobody dies under the lock. */
  ghost predicate NoDeathInside(w: World, steps: seq<Step>)
    requires Run(w, steps)
    decreases |steps|
  {
    steps == [] ||
    ((steps[0].Die? ==> !HoldsLock(w, steps[0].p)) && NoDeathInside(After(w, steps[0]), steps[1..]))
  }

  /** The lock file is there exactly while somebody is inside. */
  ghost predicate LockTight(w: World) {
    w.lockFile <==> exists p :: HoldsLock(w, p)
  }

  lemma StepKeepsTight(w: World, step: Step)
    requires Inv(w) && LockTight(w) && Enabled(w, step) && (step.Die? ==> !HoldsLock(w, step.p))
    ensures LockTight(After(w, step))
  {
    hide NumbersCovered, PcRight, Preserves, IsNextNumber, MsgName;
    var w' := After(w, step);
    if step.RemoveStaleLock? {
      assert forall p :: HoldsLock(w', p) <==> HoldsLock(w, p);
    } else {
      LeavesWithLock(w, step);
      OneMoves(w, step);
      hide After, Enabled;
      TightAgain(w, w', step.p);
    }
  }

  /** Whoever leaves alive takes the lock file away, and nobody else does. */
  lemma LeavesWithLock(w: World, step: Step)
    requires Enabled(w, step) && !step.RemoveStaleLock? && (step.Die? ==> !HoldsLock(w, step.p))
    ensures var w' := After(w, step);
            HoldsLock(w, step.p) && !HoldsLock(w', step.p) ==> !w'.lockFile
    ensures !HoldsLock(w, step.p) && !HoldsLock(After(w, step), step.p) ==> After(w, step).lockFile == w.lockFile
    ensures HoldsLock(After(w, step), step.p) && !HoldsLock(w, step.p) ==> After(w, step).lockFile
  {
    hide IsNextNumber, MsgName;
  }

  lemma TightAgain(w: World, w': World, p: Pid)
    requires Exclusive(w) && LockTight(w) && p in w'.procs && w'.procs == w.procs[p := w'.procs[p]]
    requires HoldsLock(w, p) && !HoldsLock(w', p) ==> !w'.lockFile
    requires !HoldsLock(w, p) && !HoldsLock(w', p) ==> w'.lockFile == w.lockFile
    requires HoldsLock(w', p) && !HoldsLock(w, p) ==> w'.lockFile
    requires HoldsLock(w', p) && w.lockFile ==> w'.lockFile
    ensures LockTight(w')
  {
    forall q | q != p ensures HoldsLock(w', q) <==> HoldsLock(w, q) {
    }
    if HoldsLock(w', p) {
      assert HoldsLock(w, p) ==> w.lockFile;
    } else if q :| HoldsLock(w', q) {
      assert HoldsLock(w, q) && !HoldsLock(w, p);
    } else if !HoldsLock(w, p) && w.lockFile {
      var q :| HoldsLock(w, q);
      assert HoldsLock(w', q);
    }
  }

  lemma {:induction false} RunKeepsTight(w: World, steps: seq<Step>)
    requires Inv(w) && LockTight(w) && Run(w, steps) && NoDeathInside(w, steps)
    ensures Inv(End(w, steps)) && LockTight(End(w, steps))
    decreases |steps|
  {
    hide Inv, LockTight, Enabled, After, HoldsLock;
    if steps != [] {
      StepKeepsTight(w, steps[0]);
      StepKeepsInv(w, steps[0]);
      RunKeepsTight(After(w, steps[0]), steps[1..]);
    }
  }

  /** As long as nobody dies under the lock, the lock file is there exactly while somebody
      is inside, and a process that tries gets in exactly when nobody is. */
  lemma LockComesFree(w: World, steps: seq<Step>, q: Pid)
    requires Init(w) && !w.lockFile && Run(w, steps) && NoDeathInside(w, steps)
    requires q in End(w, steps).procs && End(w, steps).procs[q].Outside?
    ensures var mid := End(w, steps);
            && LockTight(mid)
            && (HoldsLock(After(mid, TryLock(q)), q) <==> forall p :: !HoldsLock(mid, p))
            && (!HoldsLock(After(mid, TryLock(q)), q) ==> After(mid, TryLock(q)) == mid)
  {
    assert Inv(w) && forall p :: !HoldsLock(w, p);
    RunKeepsTight(w, steps);
    var mid := End(w, steps);
    hide Run, End, NoDeathInside, Inv;
    TryLockSeen(mid, q);
  }

  lemma TryLockSeen(w: World, q: Pid)
    requires q in w.procs && w.procs[q].Outside?
    ensures HoldsLock(After(w, TryLock(q)), q) <==> !w.lockFile
    ensures w.lockFile ==> After(w, TryLock(q)) == w
  {
  }

  lemma RunCons(w: World, step: Step, steps: seq<Step>)
    requires Enabled(w, step) && Run(After(w, step), steps)
    ensures Run(w, [step] + steps) && End(w, [step] + steps) == End(After(w, step), steps)
  {
    hide Enabled, After;
    assert ([step] + steps)[1..] == steps;
  }

  /** Wherever it is, the process inside can leave in two steps or less, and then the lock
      is free and nothing else has changed. */
  lemma InsideCanLeave(w: World, p: Pid) returns (steps: seq<Step>)
    requires HoldsLock(w, p)
    ensures |steps| <= 2 && Run(w, steps)
    ensures End(w, steps) == At(w, p, Outside).(lockFile := false)
  {
    if w.procs[p].Opened? {
      steps := [WritePid(p, false)];
      RunCons(w, WritePid(p, false), []);
      assert [WritePid(p, false)] + [] == steps;
    } else {
      steps := [Fail(p), Release(p)];
      var inside := After(w, Fail(p));
      RunCons(inside, Release(p), []);
      RunCons(w, Fail(p), [Release(p)]);
      assert [Release(p)] + [] == [Release(p)] && [Fail(p)] + [Release(p)] == steps;
      assert inside.procs[p := Outside] == w.procs[p := Outside];
    }
  }

  // ---------- One session ----------

  /** The texts after text `n` of a conference was stored and a link appended to `parent`. */
  function Linked(texts: map<(Conf, nat), string>, conf: Conf, n: nat, content: string, parent: nat, link: string):
      map<(Conf, nat), string> {
    var stored := texts[(conf, n) := content];
    if parent == 0 then stored
    else
      var before := if (conf, parent) in stored then stored[(conf, parent)] else "";
      stored[(conf, parent) := before + link]
  }

  lemma {:induction false} RunAppend(w: World, a: seq<Step>, b: seq<Step>)
    requires Run(w, a) && Run(End(w, a), b)
    ensures Run(w, a + b) && End(w, a + b) == End(End(w, a), b)
    decreases |a|
  {
    hide Enabled, After;
    if a == [] {
      assert a + b == b;
    } else {
      RunAppend(After(w, a[0]), a[1..], b);
      assert a + b == [a[0]] + (a[1..] + b);
      RunCons(w, a[0], a[1..] + b);
    }
  }

  lemma RunTwo(w: World, a: Step, b: Step)
    requires Enabled(w, a) && Enabled(After(w, a), b)
    ensures Run(w, [a, b]) && End(w, [a, b]) == After(After(w, a), b)
  {
    hide Enabled, After;
    RunCons(After(w, a), b, []);
    assert [b] == [b] + [];
    RunCons(w, a, [b]);
    assert [a, b] == [a] + [b];
  }

  lemma Enter(w: World, p: Pid)
    requires p in w.procs && w.procs[p].Outside? && !w.lockFile
    ensures var steps := [TryLock(p), WritePid(p, true)];
            Run(w, steps) && End(w, steps) == At(w, p, Inside).(lockFile := true)
  {
    RunTwo(w, TryLock(p), WritePid(p, true));
    assert w.procs[p := Opened][p := Inside] == w.procs[p := Inside];
  }

  lemma GetNumber(w: World, p: Pid, conf: Conf)
    requires p in w.procs && w.procs[p].Inside? && conf in w.lastText
    ensures var steps, n := [ReadConf(p, conf), RenameConf(p)], w.lastText[conf] + 1;
            Run(w, steps) && End(w, steps) == At(w, p, Numbered(conf, n)).(lastText := w.lastText[conf := n])
  {
    RunTwo(w, ReadConf(p, conf), RenameConf(p));
    var n := w.lastText[conf] + 1;
    assert w.procs[p := ConfRead(conf, w.lastText[conf := n])][p := Numbered(conf, n)] ==
           w.procs[p := Numbered(conf, n)];
  }

  lemma StoreNumbered(w: World, p: Pid, conf: Conf, n: nat, content: string, parent: nat, link: string)
    requires p in w.procs && w.procs[p] == Numbered(conf, n) && parent < n
    ensures var steps := [WriteText(p, content, parent), AppendLink(p, link)];
            && Run(w, steps)
            && End(w, steps) == At(w, p, Inside).(texts := Linked(w.texts, conf, n, content, parent, link))
  {
    RunTwo(w, WriteText(p, content, parent), AppendLink(p, link));
    assert w.procs[p := Written(conf, n, parent)][p := Inside] == w.procs[p := Inside];
  }

  lemma ExportInside(w: World, p: Pid, area: Area, n: nat, content: string)
    requires p in w.procs && w.procs[p].Inside? && IsNextNumber(SpoolNames(w, area), n)
    ensures var steps := [ListSpool(p, area, n), WriteMsg(p, content)];
            Run(w, steps) && End(w, steps) == At(w, p, Inside).(spool := w.spool[(area, MsgName(n)) := content])
  {
    hide IsNextNumber, MsgName;
    RunTwo(w, ListSpool(p, area, n), WriteMsg(p, content));
    assert w.procs[p := Listed(area, MsgName(n))][p := Inside] == w.procs[p := Inside];
  }

  lemma Leave(w: World, p: Pid)
    requires p in w.procs && w.procs[p].Inside?
    ensures Run(w, [Release(p)]) && End(w, [Release(p)]) == At(w, p, Outside).(lockFile := false)
  {
    RunCons(w, Release(p), []);
    assert [Release(p)] == [Release(p)] + [];
  }

  /** A process that gets in and stores a text gives it the number above last_text, appends
      the link to the parent, changes nothing else and leaves the lock free. */
  lemma StoreSession(w: World, p: Pid, conf: Conf, content: string, parent: nat, link: string)
    requires p in w.procs && w.procs[p].Outside? && !w.lockFile && conf in w.lastText && parent <= w.lastText[conf]
    ensures var n := w.lastText[conf] + 1;
            var steps := [TryLock(p), WritePid(p, true)] + [ReadConf(p, conf), RenameConf(p)] +
                         [WriteText(p, content, parent), AppendLink(p, link)] + [Release(p)];
            && Run(w, steps)
            && End(w, steps) == w.(lastText := w.lastText[conf := n],
                                   texts := Linked(w.texts, conf, n, content, parent, link))
  {
    hide Run, End, Linked;
    var a, b := [TryLock(p), WritePid(p, true)], [ReadConf(p, conf), RenameConf(p)];
    var c, d := [WriteText(p, content, parent), AppendLink(p, link)], [Release(p)];
    var n := w.lastText[conf] + 1;
    Enter(w, p);
    var w1 := End(w, a);
    GetNumber(w1, p, conf);
    RunAppend(w, a, b);
    var w2 := End(w, a + b);
    StoreNumbered(w2, p, conf, n, content, parent, link);
    RunAppend(w, a + b, c);
    var w3 := End(w, a + b + c);
    Leave(w3, p);
    RunAppend(w, a + b + c, d);
    assert End(w, a + b + c + d).procs == w.procs;
  }

  /** A process that gets in and exports writes one new file, under the next number, changes
      nothing else and leaves the lock free. */
  lemma ExportSession(w: World, p: Pid, area: Area, n: nat, content: string)
    requires p in w.procs && w.procs[p].Outside? && !w.lockFile && IsNextNumber(SpoolNames(w, area), n)
    ensures var steps := [TryLock(p), WritePid(p, true)] + [ListSpool(p, area, n), WriteMsg(p, content)] + [Release(p)];
            && Run(w, steps) && (area, MsgName(n)) !in w.spool
            && End(w, steps) == w.(spool := w.spool[(area, MsgName(n)) := content])
  {
    hide Run, End, IsNextNumber, MsgName;
    NewInSpool(w, area, n);
    var a, b, c := [TryLock(p), WritePid(p, true)], [ListSpool(p, area, n), WriteMsg(p, content)], [Release(p)];
    Enter(w, p);
    var w1 := End(w, a);
    assert SpoolNames(w1, area) == SpoolNames(w, area);
    ExportInside(w1, p, area, n, content);
    RunAppend(w, a, b);
    var w2 := End(w, a + b);
    Leave(w2, p);
    RunAppend(w, a + b, c);
    assert End(w, a + b + c).procs == w.procs;
  }

  /** A process that died inside leaves the lock: until it is removed by hand, no
      other process gets in. */
  lemma {:induction false} OrphanedLockBlocks(w: World, steps: seq<Step>)
    requires w.lockFile && (forall p :: p in w.procs ==> !Holding(w.procs[p]))
    requires Run(w, steps) && RemoveStaleLock !in steps
    ensures var e := End(w, steps);
            e.lockFile && e.texts == w.texts && e.spool == w.spool && e.lastText == w.lastText &&
            forall p :: p in e.procs ==> !Holding(e.procs[p])
    decreases |steps|
  {
    hide After, Enabled;
    if steps != [] {
      OrphanedStep(w, steps[0]);
      OrphanedLockBlocks(After(w, steps[0]), steps[1..]);
    }
  }

  lemma OrphanedStep(w: World, step: Step)
    requires w.lockFile && (forall p :: p in w.procs ==> !Holding(w.procs[p]))
    requires Enabled(w, step) && !step.RemoveStaleLock?
    ensures var e := After(w, step);
            e.lockFile && e.texts == w.texts && e.spool == w.spool && e.lastText == w.lastText &&
            forall p :: p in e.procs ==> !Holding(e.procs[p])
  {
    hide IsNextNumber, MsgName, SpoolNames;
  }
}
