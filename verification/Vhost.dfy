/** Suspending and unsuspending a site: the three nginx files involved, changed one system call at a
    time by any number of jobs at once. */
module Vhost {
  import opened FileSystem
  import opened Text
  import opened CacheLog
  import CacheCuts

  /** The site's vhost, its disabled copy and the suspended page's vhost. inode tells one suspended file
      from another created after its removal. */
  datatype Files = Files(active: Option<string>, disabled: Option<string>, suspended: Option<string>, inode: nat)

  /** What a job does next. A suspend starts at Reading, an unsuspend at Removing. */
  datatype Job =
    | Reading(given: string)
    | Looking(domain: string)
    | Renaming(domain: string)
    | Opening(domain: string)
    | Filling(domain: string, inode: nat)
    | Removing
    | LookingBack
    | Restoring
    | Reloading
    | Ended(ok: bool)

  predicate Contains(s: string, sub: string) {
    exists i :: 0 <= i <= |s| && StartsWith(s[i..], sub)
  }

  function TrimSuffix(s: string, c: char): string {
    if s != "" && s[|s| - 1] == c then s[..|s| - 1] else s
  }

  /** The name on the last server_name line that has one. */
  function ServerName(lines: seq<string>): string {
    if lines == [] then ""
    else
      var line := lines[|lines| - 1];
      if Contains(line, "server_name") && |Fields(line)| >= 2 then TrimSuffix(Fields(line)[1], ';')
      else ServerName(lines[..|lines| - 1])
  }

  function DomainOf(vhost: string): string {
    ServerName(Split(vhost, '\n'))
  }

  /** A server_name directive on a line of its own. */
  function Directive(pad: string, gap: string, name: string): string {
    pad + ("server_name" + (gap + (name + ";")))
  }

  lemma DirectiveNames(pad: string, gap: string, name: string)
    requires Blank(pad) && Blank(gap) && gap != "" && CacheCuts.IsWord(name)
    ensures var line := Directive(pad, gap, name);
            Contains(line, "server_name") && Fields(line) == ["server_name", name + ";"]
  {
    var key, last := "server_name", name + ";";
    var rest := gap + last;
    CacheCuts.FieldsPadded(pad, key + rest);
    CacheCuts.FieldsCons(key, rest);
    CacheCuts.FieldsPadded(gap, last);
    CacheCuts.FieldsOfWord(last);
    var line := pad + (key + rest);
    assert line[|pad|..] == key + rest && StartsWith(line[|pad|..], key);
  }

  lemma {:induction false} LaterLinesDoNotCount(lines: seq<string>, after: seq<string>)
    requires forall i | 0 <= i < |after| :: !Contains(after[i], "server_name")
    ensures ServerName(lines + after) == ServerName(lines)
    decreases |after|
  {
    if after == [] {
      assert lines + after == lines;
    } else {
      var n := |after| - 1;
      assert (lines + after)[..|lines + after| - 1] == lines + after[..n];
      LaterLinesDoNotCount(lines, after[..n]);
    }
  }

  lemma DirectiveDecides(before: seq<string>, line: string, name: string)
    requires Contains(line, "server_name") && |Fields(line)| == 2 && Fields(line)[1] == name + ";"
    ensures ServerName(before + [line]) == name
  {
    assert (before + [line])[..|before|] == before;
    assert (name + ";")[..|name|] == name;
  }

  /** The domain of a vhost is the name in its last server_name directive, without the semicolon. */
  lemma DomainIsLastServerName(before: seq<string>, pad: string, gap: string, name: string, after: seq<string>)
    requires Blank(pad) && Blank(gap) && gap != "" && CacheCuts.IsWord(name)
    requires forall i | 0 <= i < |after| :: !Contains(after[i], "server_name")
    requires forall l | l in before + [Directive(pad, gap, name)] + after :: '\n' !in l
    ensures DomainOf(Join(before + [Directive(pad, gap, name)] + after, '\n')) == name
  {
    var line := Directive(pad, gap, name);
    SplitOfJoin(before + [line] + after, '\n');
    LaterLinesDoNotCount(before + [line], after);
    DirectiveNames(pad, gap, name);
    DirectiveDecides(before, line, name);
  }

  /** The suspended page's vhost, as far as the domain decides it. */
  function Page(domain: string): string {
    "server {\n    server_name " + domain + ";\n    return 503;\n}\n"
  }

  /** Writing at the start of a file that may already hold something. */
  function Overwrite(old_: string, text: string): string {
    if |text| >= |old_| then text else text + old_[|text|..]
  }

  /** The job's next system call, which may fail for outside reasons. */
  function Syscall(f: Files, j: Job, fault: bool): (Files, Job)
    requires !j.Ended?
  {
    match j
    case Reading(given) =>
      (f, Looking(if given != "" then given else if f.active.Some? && !fault then DomainOf(f.active.value) else ""))
    case Looking(d) => (f, if f.active.Some? && !fault then Renaming(d) else Opening(d))
    case Renaming(d) =>
      (if f.active.Some? && !fault then f.(active := None, disabled := f.active) else f, Opening(d))
    case Opening(d) =>
      if fault then (f, Ended(false))
      else
        var i := if f.suspended.Some? then f.inode else f.inode + 1;
        (f.(suspended := Some(""), inode := i), Filling(d, i))
    case Filling(d, i) =>
      if fault then (f, Ended(false))
      else if f.suspended.Some? && f.inode
          == i then (f.(suspended := Some(Overwrite(f.suspended.value, Page(d)))), Reloading)
      else (f, Reloading)
    case Removing => (if fault then f else f.(suspended := None), LookingBack)
    case LookingBack => (f, if f.disabled.Some? && !fault then Restoring else Reloading)
    case Restoring =>
      if fault || f.disabled.None? then (f, Ended(false))
      else (f.(active := f.disabled, disabled := None), Reloading)
    case Reloading => (f, Ended(!fault))
  }

  datatype State = State(files: Files, jobs: seq<Job>)

  datatype Action = Suspend(given: string) | Unsuspend | Run(k: nat, fault: bool)

  predicate Enabled(s: State, a: Action) {
    a.Run? ==> a.k < |s.jobs| && !s.jobs[a.k].Ended?
  }

  function Apply(s: State, a: Action): State
    requires Enabled(s, a)
  {
    match a
    case Suspend(given) => s.(jobs := s.jobs + [Reading(given)])
    case Unsuspend => s.(jobs := s.jobs + [Removing])
    case Run(k, fault) =>
      var (f, j) := Syscall(s.files, s.jobs[k], fault);
      State(f, s.jobs[k := j])
  }

  function Exec(s: State, acts: seq<Action>): State {
    if acts == [] then s
    else
      var p := Exec(s, acts[..|acts| - 1]);
      var a := acts[|acts| - 1];
      if Enabled(p, a) then Apply(p, a) else p
  }

  /** A live site: its vhost at the active path only. */
  function Live(vhost: string, inode: nat): Files {
    Files(Some(vhost), None, None, inode)
  }

  /** Exactly one of the two paths exists, and it holds the original vhost. */
  predicate Conserved(f: Files, vhost: string) {
    || (f.active == Some(vhost) && f.disabled == None)
    || (f.active == None && f.disabled == Some(vhost))
  }

  /** Under any interleaving of any jobs, failing calls included, exactly one of the active and disabled
      paths exists and holds the original vhost. */
  lemma {:induction false} VhostIsConserved(s: State, acts: seq<Action>, vhost: string)
    requires Conserved(s.files, vhost)
    ensures Conserved(Exec(s, acts).files, vhost)
  {
    if acts != [] {
      VhostIsConserved(s, acts[..|acts| - 1], vhost);
    }
  }

  /** No call of the schedule fails for outside reasons. */
  predicate FaultFree(acts: seq<Action>) {
    forall i | 0 <= i < |acts| && acts[i].Run? :: !acts[i].fault
  }

  /** The vhost is put away and no suspended page stands in for it. */
  predicate Dark(f: Files) {
    f.disabled.Some? && f.suspended.None?
  }

  /** Somebody is about to change that. */
  predicate Relieves(j: Job) {
    j.Opening? || j.LookingBack? || j.Restoring?
  }

  ghost predicate DarkIsBrief(s: State) {
    Dark(s.files) ==> exists k :: 0 <= k < |s.jobs| && Relieves(s.jobs[k])
  }

  lemma DarkIsBriefKept(s: State, a: Action)
    requires DarkIsBrief(s) && Enabled(s, a) && (a.Run? ==> !a.fault)
    ensures DarkIsBrief(Apply(s, a))
  {
    var s' := Apply(s, a);
    if Dark(s'.files) {
      if a.Run? && Relieves(s'.jobs[a.k]) {
      } else {
        assert Dark(s.files);
        var k :| 0 <= k < |s.jobs| && Relieves(s.jobs[k]);
        assert s'.jobs[k] == s.jobs[k];
      }
    }
  }

  lemma {:induction false} DarkIsAlwaysBrief(s: State, acts: seq<Action>)
    requires DarkIsBrief(s) && FaultFree(acts)
    ensures DarkIsBrief(Exec(s, acts))
  {
    if acts != [] {
      var n := |acts| - 1;
      DarkIsAlwaysBrief(s, acts[..n]);
      var p := Exec(s, acts[..n]);
      if Enabled(p, acts[n]) {
        DarkIsBriefKept(p, acts[n]);
      }
    }
  }

  /** When no call fails and every job has ended, however the jobs were interleaved, the site is either
      served, with or without a suspended page beside it, or suspended with its page. */
  lemma NeverLeftDark(vhost: string, inode: nat, acts: seq<Action>)
    requires FaultFree(acts)
    requires forall k | 0 <= k < |Exec(State(Live(vhost, inode), []), acts).jobs| ::
               Exec(State(Live(vhost, inode), []), acts).jobs[k].Ended?
    ensures var f := Exec(State(Live(vhost, inode), []), acts).files;
            (f.active == Some(vhost) && f.disabled == None)
            || (f.active == None && f.disabled == Some(vhost) && f.suspended.Some?)
  {
    var s := State(Live(vhost, inode), []);
    VhostIsConserved(s, acts, vhost);
    DarkIsAlwaysBrief(s, acts);
  }

  /** The job is a suspend with this domain, or an unsuspend. */
  predicate OnDomain(j: Job, d: string) {
    match j
    case Reading(given) => given == d
    case Looking(x) => x == d
    case Renaming(x) => x == d
    case Opening(x) => x == d
    case Filling(x, _) => x == d
    case _ => true
  }

  /** There is no page, or it is this domain's, or somebody is about to fill it. */
  ghost predicate OwnPage(s: State, d: string) {
    && (forall k | 0 <= k < |s.jobs| :: OnDomain(s.jobs[k], d))
    && (s.files.suspended in {None, Some(Page(d))}
        || (s.files.suspended == Some("") && exists k :: 0 <= k < |s.jobs| && s.jobs[k] == Filling(d, s.files.inode)))
  }

  /** All suspends of the schedule name this domain. */
  predicate AllName(acts: seq<Action>, d: string) {
    forall i | 0 <= i < |acts| && acts[i].Suspend? :: acts[i].given == d
  }

  lemma OwnPageKept(s: State, a: Action, d: string)
    requires d != "" && OwnPage(s, d) && Enabled(s, a) && (a.Run? ==> !a.fault) && (a.Suspend? ==> a.given == d)
    ensures OwnPage(Apply(s, a), d)
  {
    var s' := Apply(s, a);
    if a.Run? && s.jobs[a.k].Opening? {
      assert s'.jobs[a.k] == Filling(d, s'.files.inode);
    } else if s'.files.suspended == Some("") && s'.files.suspended == s.files.suspended
        && s.files.suspended != Some(Page(d)) {
      var k :| 0 <= k < |s.jobs| && s.jobs[k] == Filling(d, s.files.inode);
      assert s'.jobs[k] == s.jobs[k];
    }
  }

  lemma {:induction false} OwnPageAlways(s: State, acts: seq<Action>, d: string)
    requires d != "" && OwnPage(s, d) && FaultFree(acts) && AllName(acts, d)
    ensures OwnPage(Exec(s, acts), d)
  {
    if acts != [] {
      var n := |acts| - 1;
      OwnPageAlways(s, acts[..n], d);
      if Enabled(Exec(s, acts[..n]), acts[n]) {
        OwnPageKept(Exec(s, acts[..n]), acts[n], d);
      }
    }
  }

  /** When moreover all suspends name the same domain, the page is that domain's, whole: the site ends
      served, with or without it, or suspended with it. */
  lemma OneDomainLeavesItsPage(vhost: string, inode: nat, acts: seq<Action>, d: string)
    requires d != "" && FaultFree(acts) && AllName(acts, d)
    requires forall k | 0 <= k < |Exec(State(Live(vhost, inode), []), acts).jobs| ::
               Exec(State(Live(vhost, inode), []), acts).jobs[k].Ended?
    ensures var f := Exec(State(Live(vhost, inode), []), acts).files;
            f in {Live(vhost, f.inode), Files(Some(vhost), None, Some(Page(d)), f.inode),
                  Files(None, Some(vhost), Some(Page(d)), f.inode)}
  {
    var s := State(Live(vhost, inode), []);
    NeverLeftDark(vhost, inode, acts);
    OwnPageAlways(s, acts, d);
  }

  lemma {:induction false} ExecCons(s: State, acts: seq<Action>)
    requires acts != []
    ensures Exec(s, acts) == Exec(if Enabled(s, acts[0]) then Apply(s, acts[0]) else s, acts[1..])
    decreases |acts|
  {
    var n := |acts| - 1;
    if n > 0 {
      ExecCons(s, acts[..n]);
      assert acts[..n][1..] == acts[1..][..n - 1];
    } else {
      assert acts[..0] == [] && acts[1..] == [];
    }
  }

  // ------------------------------------------------------------------------------ one job at a time

  /** At most how many calls a job still makes. */
  function Rank(j: Job): nat {
    match j
    case Reading(_) => 6 case Looking(_) => 5 case Renaming(_) => 4 case Opening(_) => 3 case Filling(_, _) => 2
    case Removing => 4 case LookingBack => 3 case Restoring => 2 case Reloading => 1 case Ended(_) => 0
  }

  predicate First(faults: seq<bool>) {
    faults != [] && faults[0]
  }

  function Rest(faults: seq<bool>): seq<bool> {
    if faults == [] then [] else faults[1..]
  }

  /** The job runs to its end with nobody in between; faults says which of its calls fail, none after the
      list's end. */
  function Finish(f: Files, j: Job, faults: seq<bool>): (Files, bool)
    decreases Rank(j)
  {
    if j.Ended? then (f, j.ok)
    else
      var (f', j') := Syscall(f, j, First(faults));
      Finish(f', j', Rest(faults))
  }

  /** It is one of the schedules of the interleaved system. */
  lemma {:induction false} FinishIsASchedule(s: State, k: nat, faults: seq<bool>) returns (acts: seq<Action>)
    requires k < |s.jobs|
    ensures forall i | 0 <= i < |acts| :: acts[i].Run? && acts[i].k == k
    ensures var (f, ok) := Finish(s.files, s.jobs[k], faults);
            Exec(s, acts) == State(f, s.jobs[k := Ended(ok)])
    decreases Rank(s.jobs[k])
  {
    if s.jobs[k].Ended? {
      acts := [];
      assert s.jobs[k := s.jobs[k]] == s.jobs;
    } else {
      var a := Run(k, First(faults));
      var s' := Apply(s, a);
      var rest := FinishIsASchedule(s', k, Rest(faults));
      acts := [a] + rest;
      ExecCons(s, acts);
      assert acts[1..] == rest;
    }
  }

  lemma {:induction false} FinishConserves(f: Files, j: Job, faults: seq<bool>, vhost: string)
    requires Conserved(f, vhost)
    ensures Conserved(Finish(f, j, faults).0, vhost)
    decreases Rank(j)
  {
    if !j.Ended? {
      var (f', j') := Syscall(f, j, First(faults));
      FinishConserves(f', j', Rest(faults), vhost);
    }
  }

  /** A job to run: a suspend with the domain its payload gives, or an unsuspend; and which calls fail. */
  datatype Order = Order(start: Job, faults: seq<bool>)

  predicate IsOrder(o: Order) {
    o.start.Reading? || o.start.Removing?
  }

  function Session(f: Files, orders: seq<Order>): Files {
    if orders == [] then f
    else
      var o := orders[|orders| - 1];
      Finish(Session(f, orders[..|orders| - 1]), o.start, o.faults).0
  }

  lemma {:induction false} SessionConserves(f: Files, orders: seq<Order>, vhost: string)
    requires Conserved(f, vhost)
    ensures Conserved(Session(f, orders), vhost)
  {
    if orders != [] {
      var n := |orders| - 1;
      SessionConserves(f, orders[..n], vhost);
      FinishConserves(Session(f, orders[..n]), orders[n].start, orders[n].faults, vhost);
    }
  }

  lemma UnsuspendFinish(f: Files, vhost: string)
    requires Conserved(f, vhost)
    ensures Finish(f, Removing, []) == (Live(vhost, f.inode), true)
  {
    var f1 := f.(suspended := None);
    assert Finish(f, Removing, []) == Finish(f1, LookingBack, []);
    if f.disabled.Some? {
      assert Finish(f1, LookingBack, []) == Finish(f1, Restoring, []);
      assert Finish(f1, Restoring, []) == Finish(Live(vhost, f.inode), Reloading, []);
    } else {
      assert Finish(f1, LookingBack, []) == Finish(f1, Reloading, []);
    }
  }

  /** One job after another, any number of suspends and unsuspends with any of their calls failing: one
      unsuspend whose calls succeed puts all three files back as they were. */
  lemma UnsuspendRestores(vhost: string, inode: nat, orders: seq<Order>)
    requires forall i | 0 <= i < |orders| :: IsOrder(orders[i])
    ensures var f := Session(Live(vhost, inode), orders);
            Finish(f, Removing, []) == (Live(vhost, f.inode), true)
  {
    SessionConserves(Live(vhost, inode), orders, vhost);
    UnsuspendFinish(Session(Live(vhost, inode), orders), vhost);
  }

  /** A suspend whose calls succeed leaves the vhost disabled and the page in its place, whatever was
      there. Its domain is the payload's, else the one the active vhost names; a site that is suspended
      already has no active vhost, so suspending it again without a domain writes a page for no domain
      at all. */
  lemma SuspendReplaces(f: Files, given: string, vhost: string)
    requires Conserved(f, vhost)
    ensures var d := if given != "" then given else if f.active.Some? then DomainOf(vhost) else "";
            var (f', ok) := Finish(f, Reading(given), []);
            ok && f'.active == None && f'.disabled == Some(vhost) && f'.suspended == Some(Page(d))
  {
    var d := if given != "" then given else if f.active.Some? then DomainOf(vhost) else "";
    var f1 := f.(active := None, disabled := Some(vhost));
    assert Finish(f, Reading(given), []) == Finish(f, Looking(d), []);
    if f.active.Some? {
      assert Finish(f, Looking(d), []) == Finish(f, Renaming(d), []) == Finish(f1, Opening(d), []);
    } else {
      assert f1 == f && Finish(f, Looking(d), []) == Finish(f, Opening(d), []);
    }
    var i := if f.suspended.Some? then f.inode else f.inode + 1;
    var f2 := f1.(suspended := Some(""), inode := i);
    assert Finish(f1, Opening(d), []) == Finish(f2, Filling(d, i), []);
    assert Finish(f2, Filling(d, i), []) == Finish(f2.(suspended := Some(Page(d))), Reloading, []);
  }

  /** The call at i fails. */
  predicate Fails(faults: seq<bool>, i: nat) {
    i < |faults| && faults[i]
  }

  lemma FailsAt(faults: seq<bool>, i: nat)
    ensures First(faults) <==> Fails(faults, 0)
    ensures Fails(Rest(faults), i) <==> Fails(faults, i + 1)
  {
  }

  lemma WriteReports(f: Files, d: string, faults: seq<bool>)
    ensures var (f', ok) := Finish(f, Opening(d), faults);
            && (ok <==> !Fails(faults, 0) && !Fails(faults, 1) && !Fails(faults, 2))
            && f'.active == f.active && f'.disabled == f.disabled
  {
    FailsAt(faults, 0);
    FailsAt(faults, 1);
    FailsAt(Rest(faults), 0);
    if !First(faults) {
      var i := if f.suspended.Some? then f.inode else f.inode + 1;
      var f1 := f.(suspended := Some(""), inode := i);
      assert Finish(f, Opening(d), faults) == Finish(f1, Filling(d, i), Rest(faults));
      if !First(Rest(faults)) {
        var f2 := f1.(suspended := Some(Page(d)));
        assert Finish(f1, Filling(d, i), Rest(faults)) == Finish(f2, Reloading, Rest(Rest(faults)));
      } else {
        assert Finish(f1, Filling(d, i), Rest(faults)) == Finish(f1, Ended(false), Rest(Rest(faults)));
      }
    }
  }

  /** A suspend on its own, whichever of its calls fail: the vhost is put away exactly when it was found and
      the rename works, and the job reports success exactly when the page was created and written and
      nginx reloaded. Reading the vhost, looking for it and renaming it may fail without a word. */
  lemma SuspendReportsExactly(f: Files, given: string, faults: seq<bool>)
    ensures var found := f.active.Some? && !Fails(faults, 1);
            var n := if found then 3 else 2;
            var (f', ok) := Finish(f, Reading(given), faults);
            && (ok <==> !Fails(faults, n) && !Fails(faults, n + 1) && !Fails(faults, n + 2))
            && (if found && !Fails(faults, 2) then f'.active == None && f'.disabled == f.active
                else f'.active == f.active && f'.disabled == f.disabled)
  {
    var rest := Rest(faults);
    var j := Syscall(f, Reading(given), First(faults)).1;
    assert Finish(f, Reading(given), faults) == Finish(f, j, rest);
    FailsAt(faults, 0);
    FailsAt(rest, 0);
    FailsAt(Rest(rest), 0);
    forall i: nat ensures Fails(Rest(rest), i) <==> Fails(faults, i + 2) {
      FailsAt(rest, i);
      FailsAt(faults, i + 1);
    }
    if f.active.Some? && !First(rest) {
      var f1 := if First(Rest(rest)) then f else f.(active := None, disabled := f.active);
      assert Finish(f, j, rest) == Finish(f, Renaming(j.domain), Rest(rest));
      assert Finish(f, Renaming(j.domain), Rest(rest)) == Finish(f1, Opening(j.domain), Rest(Rest(rest)));
      WriteReports(f1, j.domain, Rest(Rest(rest)));
      forall i: nat ensures Fails(Rest(Rest(rest)), i) <==> Fails(faults, i + 3) {
        FailsAt(Rest(rest), i);
      }
    } else {
      assert Finish(f, j, rest) == Finish(f, Opening(j.domain), Rest(rest));
      WriteReports(f, j.domain, Rest(rest));
    }
  }

  /** An unsuspend on its own, whichever of its calls fail: the vhost comes back exactly when it was found
      and the rename works; a rename or a reload that fails is reported, a removal or a look that fails
      is not. */
  lemma UnsuspendReportsExactly(f: Files, faults: seq<bool>)
    ensures var found := f.disabled.Some? && !Fails(faults, 1);
            var (f', ok) := Finish(f, Removing, faults);
            && (ok <==> !Fails(faults, 2) && (found ==> !Fails(faults, 3)))
            && (if found && !Fails(faults, 2) then f'.active == f.disabled && f'.disabled == None
                else f'.active == f.active && f'.disabled == f.disabled)
            && f'.suspended == if Fails(faults, 0) then f.suspended else None
  {
    var rest := Rest(faults);
    var f1 := if First(faults) then f else f.(suspended := None);
    FailsAt(faults, 0);
    FailsAt(faults, 1);
    FailsAt(faults, 2);
    FailsAt(rest, 0);
    FailsAt(rest, 1);
    FailsAt(Rest(rest), 0);
    FailsAt(Rest(Rest(rest)), 0);
    assert Finish(f, Removing, faults) == Finish(f1, LookingBack, rest);
    if f.disabled.Some? && !First(rest) {
      assert Finish(f1, LookingBack, rest) == Finish(f1, Restoring, Rest(rest));
      if !First(Rest(rest)) {
        var f2 := f1.(active := f1.disabled, disabled := None);
        assert Finish(f1, Restoring, Rest(rest)) == Finish(f2, Reloading, Rest(Rest(rest)));
      }
    } else {
      assert Finish(f1, LookingBack, rest) == Finish(f1, Reloading, Rest(rest));
    }
  }

  predicate NoFaults(faults: seq<bool>) {
    forall i | 0 <= i < |faults| :: !faults[i]
  }

  lemma {:induction false} FinishWithoutFaults(f: Files, j: Job, faults: seq<bool>)
    requires NoFaults(faults)
    ensures Finish(f, j, faults) == Finish(f, j, [])
    decreases Rank(j)
  {
    if !j.Ended? {
      var (f', j') := Syscall(f, j, false);
      FinishWithoutFaults(f', j', Rest(faults));
    }
  }

  /** The site is served after these orders: there were none, or the last was an unsuspend. */
  predicate ServedAfter(orders: seq<Order>) {
    orders == [] || !orders[|orders| - 1].start.Reading?
  }

  /** The domain on the page after these orders: the last suspend's own, else, if the site was served when
      it ran, the one the vhost names. */
  function PageDomain(orders: seq<Order>, vhost: string): string
    requires !ServedAfter(orders)
  {
    var given := orders[|orders| - 1].start.given;
    if given != "" then given else if ServedAfter(orders[..|orders| - 1]) then DomainOf(vhost) else ""
  }

  /** One job after another, none of whose calls fails: the files are those of a served or of a suspended
      site, by the last order alone, and the page's domain by the last two. */
  lemma {:induction false} SessionSettles(vhost: string, inode: nat, orders: seq<Order>)
    requires forall i | 0 <= i < |orders| :: IsOrder(orders[i]) && NoFaults(orders[i].faults)
    ensures var f := Session(Live(vhost, inode), orders);
            if ServedAfter(orders) then f == Live(vhost, f.inode)
            else f == Files(None, Some(vhost), Some(Page(PageDomain(orders, vhost))), f.inode)
    decreases |orders|
  {
    if orders != [] {
      var n := |orders| - 1;
      var g, o := Session(Live(vhost, inode), orders[..n]), orders[n];
      SessionSettles(vhost, inode, orders[..n]);
      SessionConserves(Live(vhost, inode), orders[..n], vhost);
      FinishWithoutFaults(g, o.start, o.faults);
      if o.start.Removing? {
        UnsuspendFinish(g, vhost);
      } else {
        SuspendReplaces(g, o.start.given, vhost);
      }
    }
  }

  // ------------------------------------------------------------------------------ a suspend and an unsuspend

  /** The calls whose order matters when a suspend and an unsuspend run at once. */
  datatype Call = MovesAway | CreatesPage | RemovesPage | LooksBack | AnyOther

  function CallOf(j: Job): Call {
    match j
    case Renaming(_) => MovesAway
    case Opening(_) => CreatesPage
    case Removing => RemovesPage
    case LookingBack => LooksBack
    case _ => AnyOther
  }

  /** A job makes its next call. */
  datatype Step = Step(k: nat, job: Job)

  /** The calls a schedule makes, in order. */
  function Calls(s: State, acts: seq<Action>): seq<Step> {
    if acts == [] then []
    else
      var init, a := acts[..|acts| - 1], acts[|acts| - 1];
      var p := Exec(s, init);
      Calls(s, init) + (if a.Run? && Enabled(p, a) then [Step(a.k, p.jobs[a.k])] else [])
  }

  /** When each of the four was made first; -1 if it was not. */
  datatype Times = Times(movesAway: int, createsPage: int, removesPage: int, looksBack: int)

  function Earliest(before: int, now: nat): int {
    if before < 0 then now else before
  }

  function Noted(t: Times, c: Call, now: nat): Times {
    match c
    case MovesAway => t.(movesAway := Earliest(t.movesAway, now))
    case CreatesPage => t.(createsPage := Earliest(t.createsPage, now))
    case RemovesPage => t.(removesPage := Earliest(t.removesPage, now))
    case LooksBack => t.(looksBack := Earliest(t.looksBack, now))
    case AnyOther => t
  }

  function TimesOf(calls: seq<Step>): Times {
    if calls == [] then Times(-1, -1, -1, -1)
    else Noted(TimesOf(calls[..|calls| - 1]), CallOf(calls[|calls| - 1].job), |calls| - 1)
  }

  /** The call made at x was made, and before the one at y. */
  predicate Before(x: int, y: int) {
    0 <= x && (y < 0 || x < y)
  }

  function DomainFor(given: string, vhost: string): string {
    if given != "" then given else DomainOf(vhost)
  }

  /** Where the suspend stands: it has moved the vhost away, or created the page. */
  predicate HasMoved(j: Job) {
    j.Opening? || HasCreated(j)
  }

  predicate HasCreated(j: Job) {
    j.Filling? || j.Reloading? || j.Ended?
  }

  predicate IsSuspend(j: Job, d: string, given: string, inode: nat) {
    match j
    case Reading(g) => g == given
    case Looking(x) => x == d
    case Renaming(x) => x == d
    case Opening(x) => x == d
    case Filling(x, i) => x == d && i == inode
    case Reloading => true
    case Ended(ok) => ok
    case _ => false
  }

  predicate IsUnsuspend(j: Job) {
    j.Removing? || j.LookingBack? || j.Restoring? || j.Reloading? || j == Ended(true)
  }

  predicate HasLooked(j: Job) {
    j.Restoring? || j.Reloading? || j.Ended?
  }

  /** The vhost is back at the active path, or has not left it. */
  predicate Served(a: Job, b: Job, t: Times) {
    !HasMoved(a) || (Before(t.movesAway, t.looksBack) && HasLooked(b) && !b.Restoring?)
  }

  /** The page exists: created, and not removed since. */
  predicate PageThere(a: Job, b: Job, t: Times) {
    HasCreated(a) && !(b != Removing && Before(t.createsPage, t.removesPage))
  }

  /** The times fit what the jobs have done, before the moment now. */
  predicate TimesFit(a: Job, b: Job, t: Times, now: nat) {
    && (if HasMoved(a) then 0 <= t.movesAway < now else t.movesAway == -1)
    && (if HasCreated(a) then t.movesAway < t.createsPage < now else t.createsPage == -1)
    && (if b != Removing then 0 <= t.removesPage < now else t.removesPage == -1)
    && (if HasLooked(b) then t.removesPage < t.looksBack < now else t.looksBack == -1)
    && (HasMoved(a) && HasLooked(b) ==> t.movesAway != t.looksBack)
    && (HasCreated(a) && b != Removing ==> t.createsPage != t.removesPage)
  }

  predicate FilesFit(f: Files, a: Job, b: Job, t: Times, d: string, vhost: string) {
    && (b.Restoring? ==> Before(t.movesAway, t.looksBack))
    && (if Served(a, b, t) then f.active == Some(vhost) && f.disabled == None
        else f.active == None && f.disabled == Some(vhost))
    && (if PageThere(a, b, t) then f.suspended == Some(if a.Filling? then "" else Page(d)) else f.suspended == None)
  }

  /** What holds between any two calls of one suspend and one unsuspend. */
  predicate Pair(s: State, t: Times, now: nat, given: string, vhost: string) {
    && |s.jobs| == 2
    && IsSuspend(s.jobs[0], DomainFor(given, vhost), given, s.files.inode) && IsUnsuspend(s.jobs[1])
    && TimesFit(s.jobs[0], s.jobs[1], t, now)
    && FilesFit(s.files, s.jobs[0], s.jobs[1], t, DomainFor(given, vhost), vhost)
  }

  function BothStart(vhost: string, inode: nat, given: string): State {
    State(Live(vhost, inode), [Reading(given), Removing])
  }

  lemma SuspendKeepsPair(s: State, t: Times, now: nat, given: string, vhost: string)
    requires Pair(s, t, now, given, vhost) && Enabled(s, Run(0, false))
    ensures Pair(Apply(s, Run(0, false)), Noted(t, CallOf(s.jobs[0]), now), now + 1, given, vhost)
  {
  }

  lemma UnsuspendKeepsPair(s: State, t: Times, now: nat, given: string, vhost: string)
    requires Pair(s, t, now, given, vhost) && Enabled(s, Run(1, false))
    ensures Pair(Apply(s, Run(1, false)), Noted(t, CallOf(s.jobs[1]), now), now + 1, given, vhost)
  {
  }

  predicate OnlyRuns(acts: seq<Action>) {
    forall i | 0 <= i < |acts| :: acts[i].Run?
  }

  lemma CallsSnoc(s: State, acts: seq<Action>)
    requires acts != [] && acts[|acts| - 1].Run?
    ensures var init, a := acts[..|acts| - 1], acts[|acts| - 1]; var p := Exec(s, init);
            Calls(s, acts) == if Enabled(p, a) then Calls(s, init) + [Step(a.k, p.jobs[a.k])] else Calls(s, init)
  {
  }

  lemma TimesSnoc(calls: seq<Step>, c: Step)
    ensures TimesOf(calls + [c]) == Noted(TimesOf(calls), CallOf(c.job), |calls|)
  {
    assert (calls + [c])[..|calls|] == calls;
  }

  lemma PairKept(p: State, t: Times, now: nat, k: nat, given: string, vhost: string)
    requires Pair(p, t, now, given, vhost) && Enabled(p, Run(k, false))
    ensures Pair(Apply(p, Run(k, false)), Noted(t, CallOf(p.jobs[k]), now), now + 1, given, vhost)
  {
    if k == 0 {
      SuspendKeepsPair(p, t, now, given, vhost);
    } else {
      UnsuspendKeepsPair(p, t, now, given, vhost);
    }
  }

  lemma {:induction false} PairAlways(vhost: string, inode: nat, given: string, acts: seq<Action>)
    requires OnlyRuns(acts) && FaultFree(acts)
    ensures var s := BothStart(vhost, inode, given);
            Pair(Exec(s, acts), TimesOf(Calls(s, acts)), |Calls(s, acts)|, given, vhost)
  {
    if acts != [] {
      var n := |acts| - 1;
      var s, k := BothStart(vhost, inode, given), acts[n].k;
      PairAlways(vhost, inode, given, acts[..n]);
      CallsSnoc(s, acts);
      assert acts[n] == Run(k, false);
      var p := Exec(s, acts[..n]);
      if Enabled(p, acts[n]) {
        var calls := Calls(s, acts[..n]);
        PairKept(p, TimesOf(calls), |calls|, k, given, vhost);
        TimesSnoc(calls, Step(k, p.jobs[k]));
      }
    }
  }

  /** One suspend and one unsuspend of a served site, interleaved in any way with no call failing, once
      both have ended. The site is suspended, with its page, exactly when the unsuspend looked for the
      disabled vhost before it was moved there; it is served without a page exactly when the page was
      created before it was removed; and it is served with the page beside it exactly when the page was
      created after the removal and the vhost moved away before the unsuspend looked. */
  lemma OverlapDecidedByFourCalls(vhost: string, inode: nat, given: string, acts: seq<Action>)
    requires OnlyRuns(acts) && FaultFree(acts)
    requires forall k | 0 <= k < |Exec(BothStart(vhost, inode, given), acts).jobs| ::
               Exec(BothStart(vhost, inode, given), acts).jobs[k].Ended?
    ensures var s := BothStart(vhost, inode, given);
            var f, t, page := Exec(s, acts).files, TimesOf(Calls(s, acts)), Some(Page(DomainFor(given, vhost)));
            && (f == Files(None, Some(vhost), page, f.inode) <==> Before(t.looksBack, t.movesAway))
            && (f == Files(Some(vhost), None, None, f.inode) <==> Before(t.createsPage, t.removesPage))
            && (f == Files(Some(vhost), None, page, f.inode) <==>
                  Before(t.removesPage, t.createsPage) && Before(t.movesAway, t.looksBack))
  {
    PairAlways(vhost, inode, given, acts);
  }

  // ------------------------------------------------------------------------------ two suspends

  /** When a job opened the page and when it filled it, -1 if it did not, and for which domain. */
  datatype Writer = Writer(openedAt: int, filledAt: int, domain: string)

  function WriterNoted(w: Writer, j: Job, now: nat): Writer {
    match j
    case Opening(d) => Writer(now, w.filledAt, d)
    case Filling(_, _) => w.(filledAt := now)
    case _ => w
  }

  function WriterOf(calls: seq<Step>, k: nat): Writer {
    if calls == [] then Writer(-1, -1, "")
    else
      var w, c := WriterOf(calls[..|calls| - 1], k), calls[|calls| - 1];
      if c.k == k then WriterNoted(w, c.job, |calls| - 1) else w
  }

  /** The page that two writers leave, the second of whom filled it last. */
  function LeftBy(x: Writer, y: Writer): string {
    if x.filledAt < y.openedAt then Page(y.domain) else Overwrite(Page(x.domain), Page(y.domain))
  }

  /** The page when x opened it last: what was filled in since. */
  function Content(x: Writer, y: Writer): string {
    if y.filledAt < x.openedAt then (if x.filledAt < 0 then "" else Page(x.domain))
    else if x.filledAt < 0 then Page(y.domain)
    else if y.filledAt < x.filledAt then Overwrite(Page(y.domain), Page(x.domain))
    else Overwrite(Page(x.domain), Page(y.domain))
  }

  predicate IsWriter(j: Job, w: Writer, given: string, inode: nat, now: nat) {
    && (match j
        case Reading(g) => g == given && w == Writer(-1, -1, "")
        case Looking(d) => (given != "" ==> d == given) && w == Writer(-1, -1, "")
        case Renaming(d) => (given != "" ==> d == given) && w == Writer(-1, -1, "")
        case Opening(d) => (given != "" ==> d == given) && w == Writer(-1, -1, "")
        case Filling(d, i) => i == inode && w.domain == d && 0 <= w.openedAt < now && w.filledAt == -1
        case Reloading => 0 <= w.openedAt < w.filledAt < now
        case Ended(ok) => ok && 0 <= w.openedAt < w.filledAt < now
        case _ => false)
    && (given != "" && w.openedAt >= 0 ==> w.domain == given)
  }

  /** What holds between any two calls of two suspends. */
  predicate Writers(s: State, x: Writer, y: Writer, now: nat, a: string, b: string) {
    && |s.jobs| == 2
    && IsWriter(s.jobs[0], x, a, s.files.inode, now) && IsWriter(s.jobs[1], y, b, s.files.inode, now)
    && (x.openedAt >= 0 && y.openedAt >= 0 ==>
          x.openedAt != y.openedAt && x.openedAt != y.filledAt && y.openedAt != x.filledAt)
    && (x.filledAt >= 0 && y.filledAt >= 0 ==> x.filledAt != y.filledAt)
    && s.files.suspended == if x.openedAt < 0 && y.openedAt < 0 then None
                            else Some(if x.openedAt > y.openedAt then Content(x, y) else Content(y, x))
  }

  lemma FirstKeepsWriters(s: State, x: Writer, y: Writer, now: nat, a: string, b: string)
    requires Writers(s, x, y, now, a, b) && Enabled(s, Run(0, false))
    ensures Writers(Apply(s, Run(0, false)), WriterNoted(x, s.jobs[0], now), y, now + 1, a, b)
  {
  }

  lemma SecondKeepsWriters(s: State, x: Writer, y: Writer, now: nat, a: string, b: string)
    requires Writers(s, x, y, now, a, b) && Enabled(s, Run(1, false))
    ensures Writers(Apply(s, Run(1, false)), x, WriterNoted(y, s.jobs[1], now), now + 1, a, b)
  {
  }

  lemma WritersKept(p: State, calls: seq<Step>, k: nat, a: string, b: string)
    requires Writers(p, WriterOf(calls, 0), WriterOf(calls, 1), |calls|, a, b) && Enabled(p, Run(k, false))
    ensures var calls' := calls + [Step(k, p.jobs[k])];
            Writers(Apply(p, Run(k, false)), WriterOf(calls', 0), WriterOf(calls', 1), |calls'|, a, b)
  {
    var calls' := calls + [Step(k, p.jobs[k])];
    assert calls'[..|calls|] == calls;
    if k == 0 {
      FirstKeepsWriters(p, WriterOf(calls, 0), WriterOf(calls, 1), |calls|, a, b);
    } else {
      SecondKeepsWriters(p, WriterOf(calls, 0), WriterOf(calls, 1), |calls|, a, b);
    }
  }

  function TwoStart(vhost: string, inode: nat, a: string, b: string): State {
    State(Live(vhost, inode), [Reading(a), Reading(b)])
  }

  lemma {:induction false} WritersAlways(vhost: string, inode: nat, a: string, b: string, acts: seq<Action>)
    requires OnlyRuns(acts) && FaultFree(acts)
    ensures var s := TwoStart(vhost, inode, a, b); var calls := Calls(s, acts);
            Writers(Exec(s, acts), WriterOf(calls, 0), WriterOf(calls, 1), |calls|, a, b)
  {
    if acts != [] {
      var n := |acts| - 1;
      var s, k := TwoStart(vhost, inode, a, b), acts[n].k;
      WritersAlways(vhost, inode, a, b, acts[..n]);
      CallsSnoc(s, acts);
      assert acts[n] == Run(k, false);
      var p := Exec(s, acts[..n]);
      if Enabled(p, acts[n]) {
        WritersKept(p, Calls(s, acts[..n]), k, a, b);
      }
    }
  }

  /** Overwriting one page by another leaves one of the two exactly when the second is not the shorter one,
      or is how the first one starts. */
  lemma OverwriteIsWhole(d: string, e: string)
    ensures Overwrite(Page(d), Page(e)) in {Page(d), Page(e)} <==> |e| >= |d| || Page(e) <= Page(d)
  {
    var p, q := Page(d), Page(e);
    assert |p| - |d| == |q| - |e|;
    if |q| < |p| {
      assert q <= p ==> p == q + p[|q|..];
      assert (q + p[|q|..])[..|q|] == q;
    }
  }

  /** Two suspends of a served site, interleaved in any way with no call failing, once both have ended. x
      is the one that filled the page first. If y opened it after that, it is y's page; else y's page
      lies over x's. It is a whole page of either exactly in the first case, or when y's domain is not
      shorter than x's, or when y's page is how x's starts. */
  lemma OverlapMixesPagesExactly(vhost: string, inode: nat, a: string, b: string, acts: seq<Action>)
    requires OnlyRuns(acts) && FaultFree(acts)
    requires forall k | 0 <= k < |Exec(TwoStart(vhost, inode, a, b), acts).jobs| ::
               Exec(TwoStart(vhost, inode, a, b), acts).jobs[k].Ended?
    ensures var s := TwoStart(vhost, inode, a, b); var calls := Calls(s, acts);
            var v, w := WriterOf(calls, 0), WriterOf(calls, 1);
            var x, y := if v.filledAt < w.filledAt then v else w, if v.filledAt < w.filledAt then w else v;
            && (a != "" ==> v.domain == a) && (b != "" ==> w.domain == b)
            && Exec(s, acts).files.suspended == Some(LeftBy(x, y))
            && (LeftBy(x, y) in {Page(x.domain), Page(y.domain)} <==>
                  x.filledAt < y.openedAt || |y.domain| >= |x.domain| || Page(y.domain) <= Page(x.domain))
  {
    WritersAlways(vhost, inode, a, b, acts);
    var calls := Calls(TwoStart(vhost, inode, a, b), acts);
    OverwriteIsWhole(WriterOf(calls, 0).domain, WriterOf(calls, 1).domain);
    OverwriteIsWhole(WriterOf(calls, 1).domain, WriterOf(calls, 0).domain);
  }

  /** A suspend that has moved the vhost but not yet written its page, then a whole unsuspend, then the
      rest of the suspend. */
  function Overtaken(given: string): seq<Action> {
    [Suspend(given), Run(0, false), Run(0, false), Run(0, false),
     Unsuspend, Run(1, false), Run(1, false), Run(1, false), Run(1, false),
     Run(0, false), Run(0, false), Run(0, false)]
  }

  function StepsFrom(s: State, acts: seq<Action>, i: nat): State
    requires i <= |acts|
    decreases |acts| - i
  {
    if i == |acts| then s else StepsFrom(if Enabled(s, acts[i]) then Apply(s, acts[i]) else s, acts, i + 1)
  }

  lemma {:induction false} StepsIsExec(s: State, acts: seq<Action>, i: nat)
    requires i <= |acts|
    ensures StepsFrom(s, acts, i) == Exec(s, acts[i..])
    decreases |acts| - i
  {
    if i < |acts| {
      var t := if Enabled(s, acts[i]) then Apply(s, acts[i]) else s;
      StepsIsExec(t, acts, i + 1);
      ExecCons(s, acts[i..]);
      assert acts[i..][1..] == acts[i + 1..];
    }
  }

  lemma NextStep(s: State, acts: seq<Action>, i: nat, s': State)
    requires i < |acts| && Enabled(s, acts[i])
    requires Apply(s, acts[i]).files == s'.files && Apply(s, acts[i]).jobs == s'.jobs
    ensures StepsFrom(s, acts, i) == StepsFrom(s', acts, i + 1)
  {
  }

  lemma SuspendMoves(vhost: string, inode: nat, given: string)
    requires given != ""
    ensures StepsFrom(State(Live(vhost, inode), []), Overtaken(given), 0)
            == StepsFrom(State(Files(None, Some(vhost), None, inode), [Opening(given)]), Overtaken(given), 4)
  {
    var acts, f, g := Overtaken(given), Live(vhost, inode), Files(None, Some(vhost), None, inode);
    NextStep(State(f, []), acts, 0, State(f, [Reading(given)]));
    NextStep(State(f, [Reading(given)]), acts, 1, State(f, [Looking(given)]));
    NextStep(State(f, [Looking(given)]), acts, 2, State(f, [Renaming(given)]));
    NextStep(State(f, [Renaming(given)]), acts, 3, State(g, [Opening(given)]));
  }

  lemma UnsuspendLooksBack(vhost: string, inode: nat, given: string)
    ensures StepsFrom(State(Files(None, Some(vhost), None, inode), [Opening(given)]), Overtaken(given), 4)
            == StepsFrom(State(Files(None, Some(vhost), None, inode), [Opening(given), LookingBack]),
                Overtaken(given), 6)
  {
    var acts, g := Overtaken(given), Files(None, Some(vhost), None, inode);
    NextStep(State(g, [Opening(given)]), acts, 4, State(g, [Opening(given), Removing]));
    NextStep(State(g, [Opening(given), Removing]), acts, 5, State(g, [Opening(given), LookingBack]));
  }

  lemma UnsuspendOvertakes(vhost: string, inode: nat, given: string)
    ensures StepsFrom(State(Files(None, Some(vhost), None, inode), [Opening(given)]), Overtaken(given), 4)
            == StepsFrom(State(Live(vhost, inode), [Opening(given), Ended(true)]), Overtaken(given), 9)
  {
    var acts, f, g := Overtaken(given), Live(vhost, inode), Files(None, Some(vhost), None, inode);
    UnsuspendLooksBack(vhost, inode, given);
    NextStep(State(g, [Opening(given), LookingBack]), acts, 6, State(g, [Opening(given), Restoring]));
    NextStep(State(g, [Opening(given), Restoring]), acts, 7, State(f, [Opening(given), Reloading]));
    NextStep(State(f, [Opening(given), Reloading]), acts, 8, State(f, [Opening(given), Ended(true)]));
  }

  lemma SuspendWrites(vhost: string, inode: nat, given: string)
    ensures StepsFrom(State(Live(vhost, inode), [Opening(given), Ended(true)]), Overtaken(given), 9)
            == State(Files(Some(vhost), None, Some(Page(given)), inode + 1), [Ended(true), Ended(true)])
  {
    var acts, f := Overtaken(given), Live(vhost, inode);
    var open := Files(Some(vhost), None, Some(""), inode + 1);
    var full := Files(Some(vhost), None, Some(Page(given)), inode + 1);
    NextStep(State(f, [Opening(given), Ended(true)]), acts, 9, State(open, [Filling(given, inode + 1), Ended(true)]));
    NextStep(State(open, [Filling(given, inode + 1), Ended(true)]), acts, 10, State(full, [Reloading, Ended(true)]));
    NextStep(State(full, [Reloading, Ended(true)]), acts, 11, State(full, [Ended(true), Ended(true)]));
  }

  /** Overlapping jobs can leave both at once: the site served and its suspended page beside it, every
      call having succeeded and both jobs having reported success. */
  lemma OverlapLeavesBoth(vhost: string, inode: nat, given: string)
    requires given != ""
    ensures Exec(State(Live(vhost, inode), []), Overtaken(given))
            == State(Files(Some(vhost), None, Some(Page(given)), inode + 1), [Ended(true), Ended(true)])
    ensures FaultFree(Overtaken(given))
  {
    var acts := Overtaken(given);
    SuspendMoves(vhost, inode, given);
    UnsuspendOvertakes(vhost, inode, given);
    SuspendWrites(vhost, inode, given);
    StepsIsExec(State(Live(vhost, inode), []), acts, 0);
    assert acts[0..] == acts;
  }

  /** Two suspends, both of which open the page before either fills it. */
  function Mixing(a: string, b: string): seq<Action> {
    [Suspend(a), Suspend(b), Run(0, false), Run(0, false), Run(0, false), Run(0, false),
     Run(1, false), Run(1, false), Run(1, false), Run(0, false), Run(0, false), Run(1, false), Run(1, false)]
  }

  lemma BothArrive(vhost: string, inode: nat, a: string, b: string)
    ensures StepsFrom(State(Live(vhost, inode), []), Mixing(a, b), 0)
            == StepsFrom(State(Live(vhost, inode), [Reading(a), Reading(b)]), Mixing(a, b), 2)
  {
    var acts, f := Mixing(a, b), Live(vhost, inode);
    NextStep(State(f, []), acts, 0, State(f, [Reading(a)]));
    NextStep(State(f, [Reading(a)]), acts, 1, State(f, [Reading(a), Reading(b)]));
  }

  lemma FirstMoves(vhost: string, inode: nat, a: string, b: string)
    requires a != ""
    ensures StepsFrom(State(Live(vhost, inode), [Reading(a), Reading(b)]), Mixing(a, b), 2)
            == StepsFrom(State(Files(None, Some(vhost), None, inode), [Opening(a), Reading(b)]), Mixing(a, b), 5)
  {
    var acts, f, g := Mixing(a, b), Live(vhost, inode), Files(None, Some(vhost), None, inode);
    NextStep(State(f, [Reading(a), Reading(b)]), acts, 2, State(f, [Looking(a), Reading(b)]));
    NextStep(State(f, [Looking(a), Reading(b)]), acts, 3, State(f, [Renaming(a), Reading(b)]));
    NextStep(State(f, [Renaming(a), Reading(b)]), acts, 4, State(g, [Opening(a), Reading(b)]));
  }

  lemma BothOpen(vhost: string, inode: nat, a: string, b: string)
    requires b != ""
    ensures StepsFrom(State(Files(None, Some(vhost), None, inode), [Opening(a), Reading(b)]), Mixing(a, b), 5)
            == StepsFrom(State(Files(None, Some(vhost), Some(""), inode + 1), [Filling(a, inode + 1), Filling(b,
                inode + 1)]),
                         Mixing(a, b), 9)
  {
    var acts, g, i := Mixing(a, b), Files(None, Some(vhost), None, inode), inode + 1;
    var h := Files(None, Some(vhost), Some(""), i);
    NextStep(State(g, [Opening(a), Reading(b)]), acts, 5, State(h, [Filling(a, i), Reading(b)]));
    NextStep(State(h, [Filling(a, i), Reading(b)]), acts, 6, State(h, [Filling(a, i), Looking(b)]));
    NextStep(State(h, [Filling(a, i), Looking(b)]), acts, 7, State(h, [Filling(a, i), Opening(b)]));
    NextStep(State(h, [Filling(a, i), Opening(b)]), acts, 8, State(h, [Filling(a, i), Filling(b, i)]));
  }

  lemma BothFill(vhost: string, i: nat, a: string, b: string)
    ensures StepsFrom(State(Files(None, Some(vhost), Some(""), i), [Filling(a, i), Filling(b, i)]), Mixing(a, b), 9)
            == State(Files(None, Some(vhost), Some(Overwrite(Page(a), Page(b))), i), [Ended(true), Ended(true)])
  {
    var acts, h := Mixing(a, b), Files(None, Some(vhost), Some(""), i);
    var p, q := h.(suspended := Some(Page(a))), h.(suspended := Some(Overwrite(Page(a), Page(b))));
    NextStep(State(h, [Filling(a, i), Filling(b, i)]), acts, 9, State(p, [Reloading, Filling(b, i)]));
    NextStep(State(p, [Reloading, Filling(b, i)]), acts, 10, State(p, [Ended(true), Filling(b, i)]));
    NextStep(State(p, [Ended(true), Filling(b, i)]), acts, 11, State(q, [Ended(true), Reloading]));
    NextStep(State(q, [Ended(true), Reloading]), acts, 12, State(q, [Ended(true), Ended(true)]));
  }

  lemma PagesDiffer(a: string, b: string)
    requires a != "" && b != "" && a[0] != b[0]
    ensures !(Page(b) <= Page(a))
  {
    var head := "server {\n    server_name ";
    assert Page(a)[|head|] == a[0] && Page(b)[|head|] == b[0];
  }

  /** So two overlapping suspends can leave a page that is neither's, every call having succeeded and both
      jobs having reported success. */
  lemma OverlapLeavesMixedPage(vhost: string, inode: nat, a: string, b: string)
    requires |a| > |b| > 0 && a[0] != b[0]
    ensures Exec(State(Live(vhost, inode), []), Mixing(a, b))
            == State(Files(None, Some(vhost), Some(Overwrite(Page(a), Page(b))), inode + 1), [Ended(true), Ended(true)])
    ensures FaultFree(Mixing(a, b)) && Overwrite(Page(a), Page(b)) !in {Page(a), Page(b)}
  {
    var acts := Mixing(a, b);
    BothArrive(vhost, inode, a, b);
    FirstMoves(vhost, inode, a, b);
    BothOpen(vhost, inode, a, b);
    BothFill(vhost, inode + 1, a, b);
    StepsIsExec(State(Live(vhost, inode), []), acts, 0);
    assert acts[0..] == acts;
    PagesDiffer(a, b);
    OverwriteIsWhole(a, b);
  }

  // ------------------------------------------------------------------------------ the handlers

  /** The vhost directory, as the two handlers change it when they have it to themselves. */
  class Directory {
    var active: Option<string>
    var disabled: Option<string>
    var suspended: Option<string>
    ghost var inode: nat

    ghost function Snapshot(): Files
      reads this
    {
      Files(active, disabled, suspended, inode)
    }

    /** The loop that looks for a server name: the last line that has one wins. */
    method FindDomain(vhost: string) returns (domain: string)
      ensures domain == DomainOf(vhost)
    {
      var lines := Split(vhost, '\n');
      domain := "";
      for i := 0 to |lines|
        invariant domain == ServerName(lines[..i])
      {
        assert lines[..i + 1][..i] == lines[..i];
        if Contains(lines[i], "server_name") {
          var parts := Fields(lines[i]);
          if |parts| >= 2 {
            domain := TrimSuffix(parts[1], ';');
          }
        }
      }
      assert lines[..|lines|] == lines;
    }

    /** The first half of a suspend: find the domain, move the vhost aside. A read, stat or rename that
        fails is not an error. left is what remains of the list of faults. */
    method MoveAside(given: string, faults: seq<bool>) returns (domain: string, left: seq<bool>)
      modifies this
      ensures Finish(old(Snapshot()), Reading(given), faults) == Finish(Snapshot(), Opening(domain), left)
    {
      ghost var f := Snapshot();
      domain := given;
      if domain == "" && active.Some? && !First(faults) {
        domain := FindDomain(active.value);
      }
      left := Rest(faults);
      assert Finish(f, Reading(given), faults) == Finish(f, Looking(domain), left);
      var found := active.Some? && !First(left);
      left := Rest(left);
      if found {
        assert Finish(f, Looking(domain), Rest(faults)) == Finish(f, Renaming(domain), left);
        if !First(left) {
          active, disabled := None, active;
        }
        left := Rest(left);
      }
    }

    /** os.WriteFile of the suspended page: it creates or truncates, then writes. */
    method WritePage(domain: string, faults: seq<bool>) returns (ok: bool)
      modifies this
      ensures (Snapshot(), ok) == Finish(old(Snapshot()), Opening(domain), faults)
    {
      ghost var f := Snapshot();
      if First(faults) {
        return false;
      }
      inode := if suspended.Some? then inode else inode + 1;
      suspended := Some("");
      var left := Rest(faults);
      assert Finish(f, Opening(domain), faults) == Finish(Snapshot(), Filling(domain, inode), left);
      f := Snapshot();
      if First(left) {
        assert Finish(f, Filling(domain, inode), left) == Finish(f, Ended(false), Rest(left));
        return false;
      }
      suspended := Some(Page(domain));
      assert Finish(f, Filling(domain, inode), left) == Finish(Snapshot(), Reloading, Rest(left));
      return !First(Rest(left));
    }

    /** handleSuspendSite after its payload checks; faults says which of its calls fail, in order. */
    method Suspend(given: string, faults: seq<bool>) returns (ok: bool)
      modifies this
      ensures (Snapshot(), ok) == Finish(old(Snapshot()), Reading(given), faults)
    {
      var domain, left := MoveAside(given, faults);
      ok := WritePage(domain, left);
    }

    /** handleUnsuspendSite after its payload check. A failing removal or stat is not an error. */
    method Unsuspend(faults: seq<bool>) returns (ok: bool)
      modifies this
      ensures (Snapshot(), ok) == Finish(old(Snapshot()), Removing, faults)
    {
      ghost var f := Snapshot();
      var left := faults;
      if !First(left) {
        suspended := None;
      }
      left := Rest(left);
      assert Finish(f, Removing, faults) == Finish(Snapshot(), LookingBack, left);
      f := Snapshot();
      var found := disabled.Some? && !First(left);
      ghost var before := left;
      left := Rest(left);
      if found {
        assert Finish(f, LookingBack, before) == Finish(f, Restoring, left);
        if First(left) {
          return false;
        }
        active, disabled := disabled, None;
        assert Finish(f, Restoring, left) == Finish(Snapshot(), Reloading, Rest(left));
        left := Rest(left);
      }
      return !First(left);
    }
  }
}
