/** Site archives waiting to be downloaded: the token registry, the files on disk, the download handlers
    and the janitor, interleaved in any order under a running clock. */
module ArchiveTokens {
  import opened FileSystem

  /** Ten minutes in nanoseconds, the clock's unit. */
  const MAX_AGE := 600_000_000_000

  /** An archive's file name: its token and one of the two extensions. */
  datatype File = File(token: string, zip: bool)

  datatype Stage = Writing | Stamped | Registered | Failed

  /** One call of buildArchive. mtime belongs to the file it created, whether or not the name still leads
      there; the last three fields count what became of the registration. */
  datatype Build = Build(file: File, mtime: int, expiresAt: int, stage: Stage,
                         redeemed: nat, swept: nat, replaced: nat)

  /** A registry entry, with the build that made it. */
  datatype Entry = Entry(file: File, expiresAt: int, build: nat)

  /** A download handler that has taken its entry out of the registry. */
  datatype Fetch = Fetch(entry: Entry, step: FetchStep)
  datatype FetchStep = Claimed | Cleared | Closing | Ended

  /** The janitor between two of its steps: it reads the clock once, when it wakes. */
  datatype Janitor =
    | Asleep
    | Woken(at: int)
    | Scrubbing(at: int, victim: Option<nat>)

  datatype Event = Passed(build: nat, at: int) | Opened(build: nat, at: int, found: bool)

  /** dir says which build's file each name leads to. */
  datatype State = State(now: int, builds: seq<Build>, dir: map<File, nat>, reg: map<string, Entry>,
                         fetches: seq<Fetch>, janitor: Janitor, log: seq<Event>)

  const INIT := State(0, [], map[], map[], [], Asleep, [])

  datatype Action =
    | Tick(d: nat)
    | Start(f: File) | Write(b: nat) | Fail(b: nat) | Stamp(b: nat) | Insert(b: nat)
    | Redeem(token: string) | Check(r: nat) | Open(r: nat) | Finish(r: nat)
    | Wake | Sweep | Stat(f: File) | Scrub | Rest

  predicate InStage(s: State, b: nat, stage: Stage) {
    b < |s.builds| && s.builds[b].stage == stage
  }

  predicate AtStep(s: State, r: nat, step: FetchStep) {
    r < |s.fetches| && s.fetches[r].step == step
  }

  predicate Enabled(s: State, a: Action) {
    match a
    case Tick(_) => true
    case Start(f) => f !in s.dir
    case Write(b) => InStage(s, b, Writing)
    case Fail(b) => InStage(s, b, Writing)
    case Stamp(b) => InStage(s, b, Writing)
    case Insert(b) => InStage(s, b, Stamped)
    case Redeem(token) => token in s.reg
    case Check(r) => AtStep(s, r, Claimed)
    case Open(r) => AtStep(s, r, Cleared)
    case Finish(r) => AtStep(s, r, Closing)
    case Wake => s.janitor.Asleep?
    case Sweep => s.janitor.Woken?
    case Stat(f) => s.janitor.Scrubbing? && s.janitor.victim.None? && f in s.dir
    case Scrub => s.janitor.Scrubbing? && s.janitor.victim.Some?
    case Rest => s.janitor.Scrubbing? && s.janitor.victim.None?
  }

  function Expired(reg: map<string, Entry>, at: int): set<string> {
    set t | t in reg && at > reg[t].expiresAt
  }

  function FilesOf(reg: map<string, Entry>, tokens: set<string>): set<File>
    requires tokens <= reg.Keys
  {
    set t | t in tokens :: reg[t].file
  }

  /** Build b's registration is still in the registry. */
  predicate Live(s: State, b: nat) {
    b < |s.builds| && s.builds[b].file.token in s.reg && s.reg[s.builds[b].file.token].build == b
  }

  function SweptBuilds(s: State, at: int): seq<Build> {
    seq(|s.builds|, b requires 0 <= b < |s.builds| =>
      if Live(s, b) && s.builds[b].file.token in Expired(s.reg, at) then s.builds[b].(swept := s.builds[b].swept + 1)
      else s.builds[b])
  }

  function Replace(builds: seq<Build>, b: nat): seq<Build> {
    if b < |builds| then builds[b := builds[b].(replaced := builds[b].replaced + 1)] else builds
  }

  function Take(builds: seq<Build>, b: nat): seq<Build> {
    if b < |builds| then builds[b := builds[b].(redeemed := builds[b].redeemed + 1)] else builds
  }

  /** Builds and entries fit together. */
  ghost predicate Sound(s: State) {
    && (forall f :: f in s.dir ==> s.dir[f] < |s.builds| && s.builds[s.dir[f]].file == f)
    && (forall t :: t in s.reg ==> Backed(s, s.reg[t]) && s.reg[t].file.token == t)
    && (forall r | 0 <= r < |s.fetches| ::
          Backed(s, s.fetches[r].entry) && s.builds[s.fetches[r].entry.build].redeemed >= 1)
    && (s.janitor.Scrubbing? && s.janitor.victim.Some? ==> s.janitor.victim.value < |s.builds|)
    && (!s.janitor.Asleep? ==> s.janitor.at <= s.now)
  }

  ghost predicate Backed(s: State, e: Entry) {
    e.build < |s.builds| && s.builds[e.build].stage == Registered
    && s.builds[e.build].file == e.file && s.builds[e.build].expiresAt == e.expiresAt
  }

  function Apply(s: State, a: Action): State
    requires Enabled(s, a)
  {
    match a
    case Tick(d) => s.(now := s.now + d)
    case Start(f) =>
      s.(builds := s.builds + [Build(f, s.now, 0, Writing, 0, 0, 0)], dir := s.dir[f := |s.builds|])
    case Write(b) => s.(builds := s.builds[b := s.builds[b].(mtime := s.now)])
    case Fail(b) =>
      s.(builds := s.builds[b := s.builds[b].(stage := Failed)], dir := s.dir - {s.builds[b].file})
    case Stamp(b) =>
      s.(builds := s.builds[b := s.builds[b].(stage := Stamped, expiresAt := s.now + MAX_AGE)])
    case Insert(b) =>
      var x := s.builds[b];
      var t := x.file.token;
      var moved := if t in s.reg then Replace(s.builds, s.reg[t].build) else s.builds;
      s.(builds := moved[b := x.(stage := Registered)], reg := s.reg[t := Entry(x.file, x.expiresAt, b)])
    case Redeem(token) =>
      var e := s.reg[token];
      s.(builds := Take(s.builds, e.build), reg := s.reg - {token},
         fetches := s.fetches + [Fetch(e, Claimed)])
    case Check(r) =>
      var e := s.fetches[r].entry;
      if s.now > e.expiresAt then s.(fetches := s.fetches[r := Fetch(e, Closing)])
      else s.(fetches := s.fetches[r := Fetch(e, Cleared)], log := s.log + [Passed(e.build, s.now)])
    case Open(r) =>
      var e := s.fetches[r].entry;
      s.(fetches := s.fetches[r := Fetch(e, Closing)], log := s.log + [Opened(e.build, s.now, e.file in s.dir)])
    case Finish(r) =>
      var e := s.fetches[r].entry;
      s.(fetches := s.fetches[r := Fetch(e, Ended)], dir := s.dir - {e.file})
    case Wake => s.(janitor := Woken(s.now))
    case Sweep =>
      var gone := Expired(s.reg, s.janitor.at);
      s.(builds := SweptBuilds(s, s.janitor.at), reg := s.reg - gone, dir := s.dir - FilesOf(s.reg, gone),
         janitor := Scrubbing(s.janitor.at, None))
    case Stat(f) =>
      if s.dir[f] < |s.builds| && s.janitor.at - s.builds[s.dir[f]].mtime > 2 * MAX_AGE then
        s.(janitor := Scrubbing(s.janitor.at, Some(s.dir[f])))
      else s
    case Scrub =>
      var v := s.janitor.victim.value;
      s.(dir := if v < |s.builds| then s.dir - {s.builds[v].file} else s.dir, janitor := Scrubbing(s.janitor.at, None))
    case Rest => s.(janitor := Asleep)
  }

  // ------------------------------------------------------------------------------ every run

  /** A registration is still in the registry, or exactly one of redeemed, swept and replaced. */
  ghost predicate Balanced(s: State, b: nat)
    requires b < |s.builds|
  {
    var x := s.builds[b];
    x.redeemed + x.swept + x.replaced + (if Live(s, b) then 1 else 0) == if x.stage == Registered then 1 else 0
  }

  ghost predicate AllBalanced(s: State) {
    forall b | 0 <= b < |s.builds| :: Balanced(s, b)
  }

  /** No two download handlers hold the same registration. */
  ghost predicate FetchesDiffer(s: State) {
    forall q, r | 0 <= q < r < |s.fetches| :: s.fetches[q].entry.build != s.fetches[r].entry.build
  }

  /** No handler passed the expiry check after the deadline. */
  ghost predicate PassesTimely(s: State) {
    forall i | 0 <= i < |s.log| && s.log[i].Passed? ::
      InStage(s, s.log[i].build, Registered) && s.log[i].at <= s.builds[s.log[i].build].expiresAt
  }

  ghost predicate Inv(s: State) {
    Sound(s) && AllBalanced(s) && FetchesDiffer(s) && PassesTimely(s)
  }

  lemma BuilderKeepsInv(s: State, a: Action)
    requires Inv(s) && Enabled(s, a) && (a.Start? || a.Write? || a.Fail? || a.Stamp?)
    ensures Inv(Apply(s, a))
  {
    var s' := Apply(s, a);
    forall b | 0 <= b < |s'.builds| ensures Balanced(s', b) {
      assert b < |s.builds| ==> Balanced(s, b);
      assert b < |s.builds| ==> (Live(s', b) <==> Live(s, b));
    }
  }

  lemma InsertKeepsInv(s: State, b: nat)
    requires Inv(s) && Enabled(s, Insert(b))
    ensures Inv(Apply(s, Insert(b)))
  {
    var s' := Apply(s, Insert(b));
    assert Balanced(s, b);
    forall c | 0 <= c < |s'.builds| ensures Balanced(s', c) {
      assert Balanced(s, c);
    }
  }

  lemma RedeemKeepsInv(s: State, token: string)
    requires Inv(s) && Enabled(s, Redeem(token))
    ensures Inv(Apply(s, Redeem(token)))
  {
    var s' := Apply(s, Redeem(token));
    var c := s.reg[token].build;
    assert Live(s, c) && Balanced(s, c);
    forall b | 0 <= b < |s'.builds| ensures Balanced(s', b) {
      assert Balanced(s, b);
    }
  }

  lemma SameRegistry(s: State, s': State)
    requires AllBalanced(s) && s'.builds == s.builds && s'.reg == s.reg
    ensures AllBalanced(s')
  {
    forall b | 0 <= b < |s'.builds| ensures Balanced(s', b) {
      assert Balanced(s, b);
      assert Live(s', b) <==> Live(s, b);
    }
  }

  lemma CheckKeepsInv(s: State, r: nat)
    requires Inv(s) && Enabled(s, Check(r))
    ensures Inv(Apply(s, Check(r)))
  {
    SameRegistry(s, Apply(s, Check(r)));
    assert Backed(s, s.fetches[r].entry);
  }

  lemma OpenKeepsInv(s: State, r: nat)
    requires Inv(s) && Enabled(s, Open(r))
    ensures Inv(Apply(s, Open(r)))
  {
    SameRegistry(s, Apply(s, Open(r)));
  }

  lemma FinishKeepsInv(s: State, r: nat)
    requires Inv(s) && Enabled(s, Finish(r))
    ensures Inv(Apply(s, Finish(r)))
  {
    SameRegistry(s, Apply(s, Finish(r)));
  }

  lemma SweepKeepsInv(s: State)
    requires Inv(s) && Enabled(s, Sweep)
    ensures Inv(Apply(s, Sweep))
  {
    var s' := Apply(s, Sweep);
    forall b | 0 <= b < |s'.builds| ensures Balanced(s', b) {
      assert Balanced(s, b);
    }
  }

  lemma JanitorKeepsInv(s: State, a: Action)
    requires Inv(s) && Enabled(s, a) && (a.Tick? || a.Wake? || a.Stat? || a.Scrub? || a.Rest?)
    ensures Inv(Apply(s, a))
  {
    SameRegistry(s, Apply(s, a));
  }

  lemma InvKept(s: State, a: Action)
    requires Inv(s) && Enabled(s, a)
    ensures Inv(Apply(s, a))
  {
    match a {
      case Start(_) => BuilderKeepsInv(s, a);
      case Write(_) => BuilderKeepsInv(s, a);
      case Fail(_) => BuilderKeepsInv(s, a);
      case Stamp(_) => BuilderKeepsInv(s, a);
      case Insert(b) => InsertKeepsInv(s, b);
      case Redeem(token) => RedeemKeepsInv(s, token);
      case Check(r) => CheckKeepsInv(s, r);
      case Open(r) => OpenKeepsInv(s, r);
      case Finish(r) => FinishKeepsInv(s, r);
      case Sweep => SweepKeepsInv(s);
      case _ => JanitorKeepsInv(s, a);
    }
  }

  /** A schedule: actions that are not enabled when their turn comes do nothing. */
  function Exec(s: State, acts: seq<Action>): State {
    if acts == [] then s
    else
      var p := Exec(s, acts[..|acts| - 1]);
      var a := acts[|acts| - 1];
      if Enabled(p, a) then Apply(p, a) else p
  }

  lemma {:induction false} InvAlways(acts: seq<Action>)
    ensures Inv(Exec(INIT, acts))
  {
    if acts != [] {
      var n := |acts| - 1;
      InvAlways(acts[..n]);
      if Enabled(Exec(INIT, acts[..n]), acts[n]) {
        InvKept(Exec(INIT, acts[..n]), acts[n]);
      }
    }
  }

  /** After any schedule: every registration made is still in the registry or was taken out exactly once,
      by one download, one sweep or one overwriting registration; and whatever passed the expiry check
      did so within MAX_AGE of its stamp. */
  lemma TokensAreOneShot(acts: seq<Action>, b: nat)
    requires b < |Exec(INIT, acts).builds|
    ensures var s := Exec(INIT, acts); var x := s.builds[b];
            && x.redeemed <= 1 && x.redeemed + x.swept <= 1
            && (x.stage == Registered && !Live(s, b) <==> x.redeemed + x.swept + x.replaced == 1)
            && (x.stage != Registered ==> x.redeemed == x.swept == x.replaced == 0)
            && forall i | 0 <= i < |s.log| && s.log[i] == Passed(b, s.log[i].at) :: s.log[i].at <= x.expiresAt
  {
    InvAlways(acts);
    assert Balanced(Exec(INIT, acts), b);
  }

  // ------------------------------------------------------------------------------ prompt builders

  /** As far as this token goes, the step is one a prompt builder takes: the token is new, the builder never
      pauses longer than 2 MAX_AGE between writes, and it stamps within MAX_AGE of its last write. */
  ghost predicate PromptFor(s: State, a: Action, tok: string) {
    match a
    case Start(f) => f.token == tok ==> forall b | 0 <= b < |s.builds| :: s.builds[b].file.token != tok
    case Write(b) =>
      InStage(s, b, Writing) && s.builds[b].file.token == tok ==> s.now - s.builds[b].mtime <= 2 * MAX_AGE
    case Stamp(b) => InStage(s, b, Writing) && s.builds[b].file.token == tok ==> s.now - s.builds[b].mtime <= MAX_AGE
    case _ => true
  }

  /** Until when the janitor must leave a file alone. */
  function Deadline(x: Build): int {
    if x.stage == Writing || x.stage == Failed then x.mtime + 2 * MAX_AGE else x.expiresAt
  }

  predicate Present(s: State, b: nat) {
    b < |s.builds| && s.builds[b].file in s.dir && s.dir[s.builds[b].file] == b
  }

  ghost predicate OneBuild(s: State, tok: string) {
    forall b, c | 0 <= b < c < |s.builds| :: s.builds[b].file.token != tok || s.builds[c].file.token != tok
  }

  ghost predicate StampPrompt(s: State, tok: string) {
    forall b | 0 <= b < |s.builds| && s.builds[b].file.token == tok ::
      Deadline(s.builds[b]) <= s.builds[b].mtime + 2 * MAX_AGE
  }

  ghost predicate VictimOverdue(s: State, tok: string) {
    s.janitor.Scrubbing? && s.janitor.victim.Some? && s.janitor.victim.value < |s.builds|
    && s.builds[s.janitor.victim.value].file.token == tok ==>
      Deadline(s.builds[s.janitor.victim.value]) < s.janitor.at
  }

  /** Build b's file is still wanted: being written, registered or about to be, or being downloaded. */
  ghost predicate Wanted(s: State, b: nat) {
    || InStage(s, b, Writing)
    || InStage(s, b, Stamped)
    || Live(s, b)
    || exists r :: 0 <= r < |s.fetches| && s.fetches[r].step != Ended && s.fetches[r].entry.build == b
  }

  ghost predicate NothingLost(s: State, tok: string) {
    forall b | 0 <= b < |s.builds| && s.builds[b].file.token == tok && Wanted(s, b) && s.now <= Deadline(s.builds[b]) ::
      Present(s, b)
  }

  ghost predicate OpensKnown(s: State) {
    forall i | 0 <= i < |s.log| && s.log[i].Opened? :: s.log[i].build < |s.builds|
  }

  /** Whenever a handler opened a file of this token before its deadline, the file was there. */
  ghost predicate OpensFind(s: State, tok: string) {
    forall i | 0 <= i < |s.log| && s.log[i].Opened? && !s.log[i].found
        && s.log[i].build < |s.builds| && s.builds[s.log[i].build].file.token == tok ::
      InStage(s, s.log[i].build, Registered) && s.log[i].at > s.builds[s.log[i].build].expiresAt
  }

  ghost predicate PromptInv(s: State, tok: string) {
    && OneBuild(s, tok) && StampPrompt(s, tok) && VictimOverdue(s, tok) && NothingLost(s, tok)
    && OpensKnown(s) && OpensFind(s, tok)
  }

  lemma BuilderKeepsPromptInv(s: State, a: Action, tok: string)
    requires Inv(s) && PromptInv(s, tok) && Enabled(s, a) && PromptFor(s, a, tok)
    requires a.Start? || a.Write? || a.Stamp?
    ensures PromptInv(Apply(s, a), tok)
  {
    var s' := Apply(s, a);
    forall b | 0 <= b < |s'.builds| && s'.builds[b].file.token == tok && Wanted(s', b)
                 && s'.now <= Deadline(s'.builds[b])
      ensures Present(s', b)
    {
      assert b < |s.builds| ==> Wanted(s, b);
    }
  }

  lemma FailKeepsPromptInv(s: State, b: nat, tok: string)
    requires Inv(s) && PromptInv(s, tok) && Enabled(s, Fail(b))
    ensures PromptInv(Apply(s, Fail(b)), tok)
  {
    var s' := Apply(s, Fail(b));
    forall c | 0 <= c < |s'.builds| && s'.builds[c].file.token == tok && Wanted(s', c)
                 && s'.now <= Deadline(s'.builds[c])
      ensures Present(s', c)
    {
      assert Wanted(s, c);
      assert c != b;
    }
  }

  lemma InsertKeepsPromptInv(s: State, b: nat, tok: string)
    requires Inv(s) && PromptInv(s, tok) && Enabled(s, Insert(b))
    ensures PromptInv(Apply(s, Insert(b)), tok)
  {
    var s' := Apply(s, Insert(b));
    assert Balanced(s, b);
    forall c | 0 <= c < |s'.builds| && s'.builds[c].file.token == tok && Wanted(s', c)
                 && s'.now <= Deadline(s'.builds[c])
      ensures Present(s', c)
    {
      assert Wanted(s, c);
    }
  }

  lemma RedeemKeepsPromptInv(s: State, token: string, tok: string)
    requires Inv(s) && PromptInv(s, tok) && Enabled(s, Redeem(token))
    ensures PromptInv(Apply(s, Redeem(token)), tok)
  {
    var s' := Apply(s, Redeem(token));
    forall c | 0 <= c < |s'.builds| && s'.builds[c].file.token == tok && Wanted(s', c)
                 && s'.now <= Deadline(s'.builds[c])
      ensures Present(s', c)
    {
      assert Wanted(s, c);
    }
  }

  lemma CheckKeepsPromptInv(s: State, r: nat, tok: string)
    requires Inv(s) && PromptInv(s, tok) && Enabled(s, Check(r))
    ensures PromptInv(Apply(s, Check(r)), tok)
  {
    var s' := Apply(s, Check(r));
    forall c | 0 <= c < |s'.builds| && s'.builds[c].file.token == tok && Wanted(s', c)
                 && s'.now <= Deadline(s'.builds[c])
      ensures Present(s', c)
    {
      assert Wanted(s, c);
    }
  }

  lemma OpenKeepsPromptInv(s: State, r: nat, tok: string)
    requires Inv(s) && PromptInv(s, tok) && Enabled(s, Open(r))
    ensures PromptInv(Apply(s, Open(r)), tok)
  {
    var s' := Apply(s, Open(r));
    forall c | 0 <= c < |s'.builds| && s'.builds[c].file.token == tok && Wanted(s', c)
                 && s'.now <= Deadline(s'.builds[c])
      ensures Present(s', c)
    {
      assert Wanted(s, c);
    }
    assert Backed(s, s.fetches[r].entry);
    assert Wanted(s, s.fetches[r].entry.build);
  }

  lemma FinishKeepsPromptInv(s: State, r: nat, tok: string)
    requires Inv(s) && PromptInv(s, tok) && Enabled(s, Finish(r))
    ensures PromptInv(Apply(s, Finish(r)), tok)
  {
    var s' := Apply(s, Finish(r));
    var b := s.fetches[r].entry.build;
    assert Backed(s, s.fetches[r].entry);
    assert Balanced(s, b);
    forall c | 0 <= c < |s'.builds| && s'.builds[c].file.token == tok && Wanted(s', c)
                 && s'.now <= Deadline(s'.builds[c])
      ensures Present(s', c)
    {
      assert Wanted(s, c);
      assert c != b;
    }
  }

  lemma SweepKeepsPromptInv(s: State, tok: string)
    requires Inv(s) && PromptInv(s, tok) && Enabled(s, Sweep)
    ensures PromptInv(Apply(s, Sweep), tok)
  {
    var s' := Apply(s, Sweep);
    forall c | 0 <= c < |s'.builds| && s'.builds[c].file.token == tok && Wanted(s', c)
                 && s'.now <= Deadline(s'.builds[c])
      ensures Present(s', c)
    {
      assert Wanted(s, c);
      forall t | t in Expired(s.reg, s.janitor.at) ensures s.reg[t].file != s.builds[c].file {
        assert Backed(s, s.reg[t]);
      }
    }
  }

  lemma JanitorKeepsPromptInv(s: State, a: Action, tok: string)
    requires Inv(s) && PromptInv(s, tok) && Enabled(s, a) && (a.Tick? || a.Wake? || a.Stat? || a.Scrub? || a.Rest?)
    ensures PromptInv(Apply(s, a), tok)
  {
    var s' := Apply(s, a);
    forall c | 0 <= c < |s'.builds| && s'.builds[c].file.token == tok && Wanted(s', c)
                 && s'.now <= Deadline(s'.builds[c])
      ensures Present(s', c)
    {
      assert Wanted(s, c);
    }
  }

  lemma PromptInvKept(s: State, a: Action, tok: string)
    requires Inv(s) && PromptInv(s, tok) && Enabled(s, a) && PromptFor(s, a, tok)
    ensures PromptInv(Apply(s, a), tok)
  {
    match a {
      case Start(_) => BuilderKeepsPromptInv(s, a, tok);
      case Write(_) => BuilderKeepsPromptInv(s, a, tok);
      case Stamp(_) => BuilderKeepsPromptInv(s, a, tok);
      case Fail(b) => FailKeepsPromptInv(s, b, tok);
      case Insert(b) => InsertKeepsPromptInv(s, b, tok);
      case Redeem(token) => RedeemKeepsPromptInv(s, token, tok);
      case Check(r) => CheckKeepsPromptInv(s, r, tok);
      case Open(r) => OpenKeepsPromptInv(s, r, tok);
      case Finish(r) => FinishKeepsPromptInv(s, r, tok);
      case Sweep => SweepKeepsPromptInv(s, tok);
      case _ => JanitorKeepsPromptInv(s, a, tok);
    }
  }

  ghost predicate PromptRun(acts: seq<Action>, tok: string) {
    forall i | 0 <= i < |acts| :: PromptFor(Exec(INIT, acts[..i]), acts[i], tok)
  }

  /** When the builder of one archive is prompt, whatever the other builders do, neither the janitor nor
      a download takes away its file while it is being written, or is registered or being downloaded and
      has not expired; so a handler that opens it before the deadline finds it. */
  lemma {:induction false} PromptBuilderLosesNothing(acts: seq<Action>, tok: string)
    requires PromptRun(acts, tok)
    ensures PromptInv(Exec(INIT, acts), tok)
  {
    if acts != [] {
      var n := |acts| - 1;
      forall i | 0 <= i < n ensures PromptFor(Exec(INIT, acts[..n][..i]), acts[..n][i], tok) {
        assert acts[..n][..i] == acts[..i];
      }
      PromptBuilderLosesNothing(acts[..n], tok);
      InvAlways(acts[..n]);
      if Enabled(Exec(INIT, acts[..n]), acts[n]) {
        PromptInvKept(Exec(INIT, acts[..n]), acts[n], tok);
      }
    }
  }

  /** So nothing at all is lost when every builder is prompt. */
  lemma PromptRunsLoseNothing(acts: seq<Action>)
    requires forall tok :: PromptRun(acts, tok)
    ensures var s := Exec(INIT, acts);
            forall b | 0 <= b < |s.builds| && Wanted(s, b) && s.now <= Deadline(s.builds[b]) :: Present(s, b)
    ensures var s := Exec(INIT, acts);
            forall i | 0 <= i < |s.log| && s.log[i].Opened? && !s.log[i].found ::
              s.log[i].build < |s.builds| && s.log[i].at > s.builds[s.log[i].build].expiresAt
  {
    var s := Exec(INIT, acts);
    forall tok ensures PromptInv(s, tok) {
      PromptBuilderLosesNothing(acts, tok);
    }
    forall b | 0 <= b < |s.builds| && Wanted(s, b) && s.now <= Deadline(s.builds[b]) ensures Present(s, b) {
      assert PromptInv(s, s.builds[b].file.token);
    }
    assert PromptInv(s, "");
    forall i | 0 <= i < |s.log| && s.log[i].Opened? && !s.log[i].found
      ensures s.log[i].build < |s.builds| && s.log[i].at > s.builds[s.log[i].build].expiresAt
    {
      var tok := s.builds[s.log[i].build].file.token;
      assert PromptInv(s, tok);
    }
  }

  // ------------------------------------------------------------------------------ downloads

  lemma ExecAppend(s: State, acts: seq<Action>, a: Action)
    ensures Exec(s, acts + [a]) == if Enabled(Exec(s, acts), a) then Apply(Exec(s, acts), a) else Exec(s, acts)
  {
    assert (acts + [a])[..|acts|] == acts;
  }

  /** A handler that comes to its check in time passes it, and opens its file. */
  lemma TimelyDownloadOpens(s: State, r: nat)
    requires AtStep(s, r, Claimed) && s.now <= s.fetches[r].entry.expiresAt
    ensures var e := s.fetches[r].entry;
            Exec(s, [Check(r), Open(r)]).log
            == s.log + [Passed(e.build, s.now), Opened(e.build, s.now, e.file in s.dir)]
  {
    var none: seq<Action> := [];
    ExecAppend(s, none, Check(r));
    ExecAppend(s, [Check(r)], Open(r));
    assert none + [Check(r)] == [Check(r)] && [Check(r)] + [Open(r)] == [Check(r), Open(r)];
  }

  /** One that comes late is turned away, and its file is removed. */
  lemma LateDownloadIsRefused(s: State, r: nat)
    requires AtStep(s, r, Claimed) && s.now > s.fetches[r].entry.expiresAt
    ensures var t := Exec(s, [Check(r), Open(r), Finish(r)]);
            t.log == s.log && AtStep(t, r, Ended) && s.fetches[r].entry.file !in t.dir
  {
    var none: seq<Action> := [];
    ExecAppend(s, none, Check(r));
    ExecAppend(s, [Check(r)], Open(r));
    ExecAppend(s, [Check(r), Open(r)], Finish(r));
    assert none + [Check(r)] == [Check(r)] && [Check(r)] + [Open(r)] == [Check(r), Open(r)];
    assert [Check(r), Open(r)] + [Finish(r)] == [Check(r), Open(r), Finish(r)];
  }

  /** The action is one of handler r's. */
  predicate Mine(a: Action, r: nat) {
    a == Check(r) || a == Open(r) || a == Finish(r)
  }

  predicate NoneMine(acts: seq<Action>, r: nat) {
    forall i | 0 <= i < |acts| :: !Mine(acts[i], r)
  }

  /** Nobody else touches a handler, and time does not run back. */
  lemma {:induction false} HandlerWaits(s: State, acts: seq<Action>, r: nat)
    requires r < |s.fetches| && NoneMine(acts, r)
    ensures r < |Exec(s, acts).fetches| && Exec(s, acts).fetches[r] == s.fetches[r] && Exec(s, acts).now >= s.now
  {
    if acts != [] {
      HandlerWaits(s, acts[..|acts| - 1], r);
    }
  }

  lemma {:induction false} ExecConcat(s: State, a: seq<Action>, b: seq<Action>)
    ensures Exec(s, a + b) == Exec(Exec(s, a), b)
  {
    if b == [] {
      assert a + b == a;
    } else {
      var n := |b| - 1;
      assert (a + b)[..|a + b| - 1] == a + b[..n];
      ExecConcat(s, a, b[..n]);
    }
  }

  /** A request for a token of the registry is a new handler, with the token's entry. */
  lemma RedeemStarts(s: State, tok: string)
    requires tok in s.reg
    ensures var t := Exec(s, [Redeem(tok)]);
            t.fetches == s.fetches + [Fetch(s.reg[tok], Claimed)] && tok !in t.reg && t.now == s.now
  {
    var none: seq<Action> := [];
    ExecAppend(s, none, Redeem(tok));
    assert none + [Redeem(tok)] == [Redeem(tok)];
  }

  /** A handler's run up to its opening, with anything of the others' before its check and after it. */
  function UpToOpen(tok: string, r: nat, b: seq<Action>, c: seq<Action>): seq<Action> {
    [Redeem(tok)] + b + [Check(r)] + c
  }

  /** Then, if there was time, it stands cleared, with the token's entry. */
  lemma DownloadClears(s: State, tok: string, b: seq<Action>, c: seq<Action>)
    requires tok in s.reg && NoneMine(b, |s.fetches|) && NoneMine(c, |s.fetches|)
    requires Exec(s, UpToOpen(tok, |s.fetches|, b, c)).now <= s.reg[tok].expiresAt
    ensures var r, t := |s.fetches|, Exec(s, UpToOpen(tok, |s.fetches|, b, c));
            r < |t.fetches| && t.fetches[r] == Fetch(s.reg[tok], Cleared)
  {
    var r := |s.fetches|;
    RedeemStarts(s, tok);
    var s1 := Exec(s, [Redeem(tok)]);
    ExecConcat(s, [Redeem(tok)], b);
    HandlerWaits(s1, b, r);
    var s2 := Exec(s1, b);
    ExecAppend(s, [Redeem(tok)] + b, Check(r));
    var s3 := Apply(s2, Check(r));
    ExecConcat(s, [Redeem(tok)] + b + [Check(r)], c);
    HandlerWaits(s3, c, r);
  }

  /** A handler that may open its file, of a prompt builder, by the deadline. */
  lemma ClearedFinds(s: State, r: nat, e: Entry)
    requires Inv(s) && PromptInv(s, e.file.token) && r < |s.fetches| && s.fetches[r] == Fetch(e, Cleared)
    requires s.now <= e.expiresAt
    ensures Enabled(s, Open(r)) && Apply(s, Open(r)).log == s.log + [Opened(e.build, s.now, true)]
  {
    assert Backed(s, e);
    assert Wanted(s, e.build);
    assert Present(s, e.build);
  }

  lemma EntryIsForToken(s: State, tok: string)
    requires Inv(s) && tok in s.reg
    ensures s.reg[tok].file.token == tok
  {
  }

  /** Prompt builder, whole download: whatever the others do in between, a request for a token of the
      registry that gets as far as opening its file by the deadline finds it there. */
  lemma PromptDownloadFindsFile(a: seq<Action>, tok: string, b: seq<Action>, c: seq<Action>)
    requires tok in Exec(INIT, a).reg && NoneMine(b, |Exec(INIT, a).fetches|) && NoneMine(c, |Exec(INIT, a).fetches|)
    requires PromptRun(a + UpToOpen(tok, |Exec(INIT, a).fetches|, b, c), tok)
    requires Exec(INIT, a + UpToOpen(tok, |Exec(INIT, a).fetches|, b, c)).now <= Exec(INIT, a).reg[tok].expiresAt
    ensures var s, r := Exec(INIT, a), |Exec(INIT, a).fetches|;
            var acts := a + UpToOpen(tok, r, b, c);
            Exec(INIT, acts + [Open(r)]).log
            == Exec(INIT, acts).log + [Opened(s.reg[tok].build, Exec(INIT, acts).now, true)]
  {
    var s, r := Exec(INIT, a), |Exec(INIT, a).fetches|;
    var acts := a + UpToOpen(tok, r, b, c);
    ExecConcat(INIT, a, UpToOpen(tok, r, b, c));
    DownloadClears(s, tok, b, c);
    InvAlways(a);
    EntryIsForToken(s, tok);
    OpenedInTime(acts, r, s.reg[tok]);
  }

  lemma OpenedInTime(acts: seq<Action>, r: nat, e: Entry)
    requires r < |Exec(INIT, acts).fetches| && Exec(INIT, acts).fetches[r] == Fetch(e, Cleared)
    requires PromptRun(acts, e.file.token)
    requires Exec(INIT, acts).now <= e.expiresAt
    ensures Exec(INIT, acts + [Open(r)]).log == Exec(INIT, acts).log + [Opened(e.build, Exec(INIT, acts).now, true)]
  {
    PromptBuilderLosesNothing(acts, e.file.token);
    InvAlways(acts);
    ClearedFinds(Exec(INIT, acts), r, e);
    ExecAppend(INIT, acts, Open(r));
  }

  /** Until its deadline a registration leaves the registry only by a request for it, or by another build
      under the same token. */
  lemma RegistrationWaits(s: State, a: Action, tok: string)
    requires Inv(s) && Enabled(s, a) && tok in s.reg && s.now <= s.reg[tok].expiresAt
    requires a != Redeem(tok) && (a.Insert? ==> s.builds[a.b].file.token != tok)
    ensures tok in Apply(s, a).reg && Apply(s, a).reg[tok] == s.reg[tok]
  {
  }

  // ------------------------------------------------------------------------------ past the deadline

  /** Nobody but handler r holds build b, r has not passed, and b has never been opened. */
  ghost predicate NeverOpened(s: State, r: nat, b: nat) {
    && r < |s.fetches| && s.fetches[r].entry.build == b && s.fetches[r].step in {Claimed, Closing, Ended}
    && s.now > s.fetches[r].entry.expiresAt
    && forall i | 0 <= i < |s.log| && s.log[i].Opened? :: s.log[i].build != b
  }

  lemma NeverOpenedKept(s: State, a: Action, r: nat, b: nat)
    requires Inv(s) && NeverOpened(s, r, b) && Enabled(s, a)
    ensures NeverOpened(Apply(s, a), r, b)
  {
    if a.Open? {
      assert a.r != r;
      assert s.fetches[a.r].entry.build != b;
    }
  }

  lemma {:induction false} NeverOpenedAlways(s: State, acts: seq<Action>, r: nat, b: nat)
    requires Inv(s) && NeverOpened(s, r, b)
    ensures Inv(Exec(s, acts)) && NeverOpened(Exec(s, acts), r, b)
  {
    if acts != [] {
      var n := |acts| - 1;
      NeverOpenedAlways(s, acts[..n], r, b);
      if Enabled(Exec(s, acts[..n]), acts[n]) {
        InvKept(Exec(s, acts[..n]), acts[n]);
        NeverOpenedKept(Exec(s, acts[..n]), acts[n], r, b);
      }
    }
  }

  /** What has been opened was opened by a handler that is past its check. */
  ghost predicate OpenersPast(s: State) {
    forall i | 0 <= i < |s.log| && s.log[i].Opened? ::
      exists q :: 0 <= q < |s.fetches| && s.fetches[q].step in {Closing, Ended}
                  && s.fetches[q].entry.build == s.log[i].build
  }

  lemma OpenersPastKept(s: State, a: Action)
    requires OpenersPast(s) && Enabled(s, a)
    ensures OpenersPast(Apply(s, a))
  {
    var s' := Apply(s, a);
    forall i | 0 <= i < |s'.log| && s'.log[i].Opened?
      ensures exists q :: 0 <= q < |s'.fetches| && s'.fetches[q].step in {Closing, Ended}
                          && s'.fetches[q].entry.build == s'.log[i].build
    {
      if i < |s.log| {
        var q :| 0 <= q < |s.fetches| && s.fetches[q].step in {Closing, Ended}
                 && s.fetches[q].entry.build == s.log[i].build;
        assert s'.fetches[q].step in {Closing, Ended} && s'.fetches[q].entry == s.fetches[q].entry;
      } else {
        assert s'.fetches[a.r].step == Closing;
      }
    }
  }

  lemma {:induction false} OpenersPastAlways(acts: seq<Action>)
    ensures OpenersPast(Exec(INIT, acts))
  {
    if acts != [] {
      var n := |acts| - 1;
      OpenersPastAlways(acts[..n]);
      if Enabled(Exec(INIT, acts[..n]), acts[n]) {
        OpenersPastKept(Exec(INIT, acts[..n]), acts[n]);
      }
    }
  }

  /** A handler that has not come to its check by the deadline never opens anything, and neither does
      anybody else for its registration, whatever happens before and afterwards. */
  lemma LateHandlerNeverOpens(before: seq<Action>, after: seq<Action>, r: nat)
    requires var s := Exec(INIT, before); AtStep(s, r, Claimed) && s.now > s.fetches[r].entry.expiresAt
    ensures var s, t := Exec(INIT, before), Exec(INIT, before + after);
            forall i | 0 <= i < |t.log| && t.log[i].Opened? :: t.log[i].build != s.fetches[r].entry.build
  {
    var s := Exec(INIT, before);
    InvAlways(before);
    OpenersPastAlways(before);
    ExecConcat(INIT, before, after);
    NeverOpenedAlways(s, after, r, s.fetches[r].entry.build);
  }

  // ------------------------------------------------------------------------------ nothing stays behind

  /** A build that fails, and a download that ends, leave no file under their name. */
  lemma FailedAndFetchedAreGone(s: State, b: nat, r: nat)
    ensures Enabled(s, Fail(b)) ==> s.builds[b].file !in Apply(s, Fail(b)).dir
    ensures Enabled(s, Finish(r)) ==> s.fetches[r].entry.file !in Apply(s, Finish(r)).dir
  {
  }

  lemma SweepClears(s: State, at: int)
    requires s.janitor == Woken(at)
    ensures var t := Apply(s, Sweep);
            && t.janitor == Scrubbing(at, None) && t.now == s.now && |t.builds| == |s.builds|
            && (forall f :: f in t.dir ==> f in s.dir && t.dir[f] == s.dir[f])
            && (forall b | 0 <= b < |s.builds| ::
                  t.builds[b].mtime == s.builds[b].mtime && t.builds[b].file == s.builds[b].file)
            && (forall tok | tok in s.reg && at > s.reg[tok].expiresAt :: tok !in t.reg && s.reg[tok].file !in t.dir)
  {
  }

  /** An action, if it is its turn. */
  function Turn(s: State, a: Action): State {
    if Enabled(s, a) then Apply(s, a) else s
  }

  lemma FourTurns(s: State, a: Action, b: Action, c: Action, d: Action)
    ensures Exec(s, [a, b, c, d]) == Turn(Turn(Turn(Turn(s, a), b), c), d)
  {
    var none: seq<Action> := [];
    ExecAppend(s, none, a);
    ExecAppend(s, [a], b);
    ExecAppend(s, [a, b], c);
    ExecAppend(s, [a, b, c], d);
    assert none + [a] == [a] && [a] + [b] == [a, b] && [a, b] + [c] == [a, b, c] && [a, b, c] + [d] == [a, b, c, d];
  }

  lemma ScrubTakes(s: State, at: int, f: File)
    requires s.janitor == Scrubbing(at, None)
    requires forall g :: g in s.dir ==> s.dir[g] < |s.builds| && s.builds[s.dir[g]].file == g
    ensures var t := Turn(Turn(s, Stat(f)), Scrub);
            && (f in s.dir && at - s.builds[s.dir[f]].mtime > 2 * MAX_AGE ==> f !in t.dir)
            && t.reg == s.reg && (forall g :: g in t.dir ==> g in s.dir)
  {
  }

  /** Each round of the janitor takes away every expired registration with its file, and any file last
      written more than 2 MAX_AGE ago that it looks at. */
  lemma JanitorRoundCleans(s: State, f: File)
    requires Inv(s) && s.janitor.Asleep?
    ensures var t := Exec(s, [Wake, Sweep, Stat(f), Scrub]);
            && (f in s.dir && s.now - s.builds[s.dir[f]].mtime > 2 * MAX_AGE ==> f !in t.dir)
            && (forall tok | tok in s.reg && s.now > s.reg[tok].expiresAt :: tok !in t.reg && s.reg[tok].file !in t.dir)
  {
    FourTurns(s, Wake, Sweep, Stat(f), Scrub);
    var s1 := Turn(s, Wake);
    SweepClears(s1, s.now);
    var s2 := Turn(s1, Sweep);
    InvKept(s, Wake);
    InvKept(s1, Sweep);
    ScrubTakes(s2, s.now, f);
  }

  // ------------------------------------------------------------------------------ late builders

  /** A registered, unexpired archive whose file is gone. */
  ghost predicate Lost(s: State, b: nat) {
    Live(s, b) && s.now <= s.builds[b].expiresAt && !Present(s, b)
  }

  lemma ExecSnoc(acts: seq<Action>, a: Action)
    ensures var p := Exec(INIT, acts); Exec(INIT, acts + [a]) == if Enabled(p, a) then Apply(p, a) else p
  {
    assert (acts + [a])[..|acts|] == acts;
  }

  /** The state after one build and nothing else. */
  function Alone(now: int, x: Build, reg: map<string, Entry>, janitor: Janitor): State {
    State(now, [x], map[x.file := 0], reg, [], janitor, [])
  }

  function Filed(x: Build): map<string, Entry> {
    map[x.file.token := Entry(x.file, x.expiresAt, 0)]
  }

  lemma Extend(acts: seq<Action>, p: State, a: Action, q: State)
    requires Exec(INIT, acts) == p && Enabled(p, a) && Apply(p, a) == q
    ensures Exec(INIT, acts + [a]) == q
  {
    ExecSnoc(acts, a);
  }

  lemma WritingAfterRest(f: File, gap: nat)
    ensures Exec(INIT, [Start(f), Tick(gap)]) == Alone(gap, Build(f, 0, 0, Writing, 0, 0, 0), map[], Asleep)
  {
    var x := Build(f, 0, 0, Writing, 0, 0, 0);
    Extend([], INIT, Start(f), Alone(0, x, map[], Asleep));
    assert [] + [Start(f)] == [Start(f)];
    Extend([Start(f)], Alone(0, x, map[], Asleep), Tick(gap), Alone(gap, x, map[], Asleep));
    assert [Start(f)] + [Tick(gap)] == [Start(f), Tick(gap)];
  }

  lemma Registers(r: seq<Action>, now: int, x: Build, j: Janitor)
    requires Exec(INIT, r) == Alone(now, x, map[], j) && x.stage == Writing
    ensures var y := x.(stage := Registered, expiresAt := now + MAX_AGE);
            Exec(INIT, r + [Stamp(0)] + [Insert(0)]) == Alone(now, y, Filed(y), j)
  {
    var z := x.(stage := Stamped, expiresAt := now + MAX_AGE);
    Extend(r, Alone(now, x, map[], j), Stamp(0), Alone(now, z, map[], j));
    var y := z.(stage := Registered);
    Extend(r + [Stamp(0)], Alone(now, z, map[], j), Insert(0), Alone(now, y, Filed(y), j));
  }

  /** A builder that rests before it stamps; the janitor comes round some time later. */
  function RestedRun(f: File, gap: nat, wait: nat): seq<Action> {
    [Start(f), Tick(gap), Stamp(0), Insert(0), Tick(wait), Wake, Sweep, Stat(f), Scrub]
  }

  lemma RestedAndScrubbed(f: File, gap: nat)
    requires gap > MAX_AGE
    ensures Lost(Exec(INIT, RestedRun(f, gap, MAX_AGE)), 0)
  {
    var x := Build(f, 0, 0, Writing, 0, 0, 0);
    var at := gap + MAX_AGE;
    var y := x.(stage := Registered, expiresAt := at);
    var r := [Start(f), Tick(gap)];
    WritingAfterRest(f, gap);
    Registers(r, gap, x, Asleep);
    var r' := r + [Stamp(0)] + [Insert(0)];
    Extend(r', Alone(gap, y, Filed(y), Asleep), Tick(MAX_AGE), Alone(at, y, Filed(y), Asleep));
    JanitorScrubs(r' + [Tick(MAX_AGE)], at, y);
    assert r' + [Tick(MAX_AGE)] + [Wake, Sweep, Stat(f), Scrub] == RestedRun(f, gap, MAX_AGE);
  }

  /** The janitor's round over one registered file, unexpired but last written too long ago. */
  lemma JanitorScrubs(r: seq<Action>, at: int, y: Build)
    requires Exec(INIT, r) == Alone(at, y, Filed(y), Asleep)
    requires y.stage == Registered && at <= y.expiresAt && at - y.mtime > 2 * MAX_AGE
    ensures Exec(INIT, r + [Wake, Sweep, Stat(y.file), Scrub])
            == Alone(at, y, Filed(y), Scrubbing(at, None)).(dir := map[])
  {
    Extend(r, Alone(at, y, Filed(y), Asleep), Wake, Alone(at, y, Filed(y), Woken(at)));
    SweepLeaves(at, y);
    Extend(r + [Wake], Alone(at, y, Filed(y), Woken(at)), Sweep, Alone(at, y, Filed(y), Scrubbing(at, None)));
    var r' := r + [Wake] + [Sweep];
    Extend(r', Alone(at, y, Filed(y), Scrubbing(at, None)), Stat(y.file),
           Alone(at, y, Filed(y), Scrubbing(at, Some(0))));
    Extend(r' + [Stat(y.file)], Alone(at, y, Filed(y), Scrubbing(at, Some(0))), Scrub,
           Alone(at, y, Filed(y), Scrubbing(at, None)).(dir := map[]));
    assert r' + [Stat(y.file)] + [Scrub] == r + [Wake, Sweep, Stat(y.file), Scrub];
  }

  lemma SweepLeaves(at: int, y: Build)
    requires at <= y.expiresAt
    ensures Apply(Alone(at, y, Filed(y), Woken(at)), Sweep) == Alone(at, y, Filed(y), Scrubbing(at, None))
  {
    var s := Alone(at, y, Filed(y), Woken(at));
    assert Expired(s.reg, at) == {};
    assert SweptBuilds(s, at) == [y];
    assert s.reg - {} == s.reg && s.dir - {} == s.dir;
  }

  /** The stray scrub can take away an unexpired archive when its builder rested before stamping, and it
      can do so exactly when that rest was longer than MAX_AGE. */
  lemma RestBeforeStampLosesArchiveExactlyWhenLong(f: File, gap: nat)
    ensures (exists wait: nat :: Lost(Exec(INIT, RestedRun(f, gap, wait)), 0)) <==> gap > MAX_AGE
  {
    if gap > MAX_AGE {
      RestedAndScrubbed(f, gap);
    } else {
      forall wait: nat ensures !Lost(Exec(INIT, RestedRun(f, gap, wait)), 0) {
        RestedRunPrompt(f, gap, wait);
        PromptRunsLoseNothing(RestedRun(f, gap, wait));
        InvAlways(RestedRun(f, gap, wait));
      }
    }
  }

  lemma RestedRunPrompt(f: File, gap: nat, wait: nat)
    requires gap <= MAX_AGE
    ensures forall tok :: PromptRun(RestedRun(f, gap, wait), tok)
  {
    var r := RestedRun(f, gap, wait);
    forall tok, i | 0 <= i < |r| ensures PromptFor(Exec(INIT, r[..i]), r[i], tok) {
      if i == 2 {
        WritingAfterRest(f, gap);
        assert r[..2] == [Start(f), Tick(gap)];
      }
    }
  }

  /** A builder that pauses before its last write, just when the janitor has looked at the file; then it
      writes, stamps and registers at once. */
  function PausedRun(f: File, pause: nat): seq<Action> {
    [Start(f), Tick(pause), Wake, Sweep, Stat(f), Write(0), Stamp(0), Insert(0), Scrub]
  }

  lemma PausedMeetsJanitor(f: File, pause: nat)
    ensures var x := Build(f, 0, 0, Writing, 0, 0, 0);
            var victim := if pause > 2 * MAX_AGE then Some(0) else None;
            Exec(INIT, [Start(f), Tick(pause), Wake, Sweep, Stat(f)])
                == Alone(pause, x, map[], Scrubbing(pause, victim))
  {
    var x := Build(f, 0, 0, Writing, 0, 0, 0);
    var victim := if pause > 2 * MAX_AGE then Some(0) else None;
    var r := [Start(f), Tick(pause)];
    WritingAfterRest(f, pause);
    Extend(r, Alone(pause, x, map[], Asleep), Wake, Alone(pause, x, map[], Woken(pause)));
    var s := Alone(pause, x, map[], Woken(pause));
    assert Expired(s.reg, pause) == {} && SweptBuilds(s, pause) == [x];
    assert s.dir - FilesOf(s.reg, {}) == s.dir && s.reg - {} == s.reg;
    Extend(r + [Wake], s, Sweep, Alone(pause, x, map[], Scrubbing(pause, None)));
    Extend(r + [Wake] + [Sweep], Alone(pause, x, map[], Scrubbing(pause, None)), Stat(f),
           Alone(pause, x, map[], Scrubbing(pause, victim)));
    assert r + [Wake] + [Sweep] + [Stat(f)] == [Start(f), Tick(pause), Wake, Sweep, Stat(f)];
  }

  /** However soon after its last write an archive is registered, the stray scrub can still take it: it
      looks at the file and removes it in two steps, and a builder that pauses for longer than 2 MAX_AGE
      can write, stamp and register between them. */
  lemma PauseLosesArchiveExactlyWhenLong(f: File, pause: nat)
    ensures Lost(Exec(INIT, PausedRun(f, pause)), 0) <==> pause > 2 * MAX_AGE
  {
    var x := Build(f, 0, 0, Writing, 0, 0, 0);
    var victim := if pause > 2 * MAX_AGE then Some(0) else None;
    var j := Scrubbing(pause, victim);
    var r := [Start(f), Tick(pause), Wake, Sweep, Stat(f)];
    PausedMeetsJanitor(f, pause);
    var y := x.(mtime := pause);
    Extend(r, Alone(pause, x, map[], j), Write(0), Alone(pause, y, map[], j));
    Registers(r + [Write(0)], pause, y, j);
    ExecSnoc(r + [Write(0)] + [Stamp(0)] + [Insert(0)], Scrub);
    assert r + [Write(0)] + [Stamp(0)] + [Insert(0)] + [Scrub] == PausedRun(f, pause);
  }
}
