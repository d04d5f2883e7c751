/** Flushing a site's cache keys: SCAN and DEL through redis-cli's text output, while other clients keep
    using the server. */
module RedisFlush {
  import opened FileSystem
  import opened Text
  import opened LineScanner

  // ------------------------------------------------------------------------------ parsing a reply

  /** The trimmed pieces that are not empty. */
  function NonBlank(parts: seq<string>): seq<string> {
    if parts == [] then []
    else
      var t := TrimSpace(parts[|parts| - 1]);
      NonBlank(parts[..|parts| - 1]) + (if t == "" then [] else [t])
  }

  /** The reply's text, as the code takes it apart: the cursor on the first line, a key on each of the
      others. */
  method ParseReply(out: string) returns (cursor: string, names: seq<string>)
    ensures var lines := Split(TrimSpace(out), '\n');
            cursor == TrimSpace(lines[0]) && names == NonBlank(lines[1..])
  {
    var lines := Split(TrimSpace(out), '\n');
    cursor := TrimSpace(lines[0]);
    names := [];
    var rest := lines[1..];
    for i := 0 to |rest|
      invariant names == NonBlank(rest[..i])
    {
      assert rest[..i + 1][..i] == rest[..i];
      var k := TrimSpace(rest[i]);
      if k != "" {
        names := names + [k];
      }
    }
    assert rest[..|rest|] == rest;
  }

  /** All lines of all keys. */
  function Pieces(keys: seq<string>): seq<string> {
    if keys == [] then [] else Pieces(keys[..|keys| - 1]) + Split(keys[|keys| - 1], '\n')
  }

  /** What the loop makes of these keys: a key with a newline in it becomes several names. */
  function Names(keys: seq<string>): seq<string> {
    NonBlank(Pieces(keys))
  }

  /** What redis-cli prints: the cursor and the keys, each on a line, and some white space at the end. */
  function Printed(cursor: string, keys: seq<string>, pad: string): string {
    Join([cursor] + keys, '\n') + pad
  }

  lemma {:induction false} NonBlankConcat(a: seq<string>, b: seq<string>)
    ensures NonBlank(a + b) == NonBlank(a) + NonBlank(b)
    decreases |b|
  {
    if b == [] {
      assert a + b == a;
    } else {
      assert (a + b)[..|a + b| - 1] == a + b[..|b| - 1];
      NonBlankConcat(a, b[..|b| - 1]);
    }
  }

  lemma NonBlankOne(x: string)
    ensures NonBlank([x]) == if TrimSpace(x) == "" then [] else [TrimSpace(x)]
  {
    assert [x][..0] == [];
  }

  lemma {:induction false} TrimLeftSnoc(s: string, c: char)
    requires IsSpace(c)
    ensures TrimLeft(s + [c]) == if TrimLeft(s) == "" then "" else TrimLeft(s) + [c]
  {
    var t := s + [c];
    if s == "" {
      assert t[1..] == "";
    } else if IsSpace(s[0]) {
      assert t[1..] == s[1..] + [c];
      TrimLeftSnoc(s[1..], c);
    }
  }

  lemma TrimSpaceSnoc(s: string, c: char)
    requires IsSpace(c)
    ensures TrimSpace(s + [c]) == TrimSpace(s)
  {
    TrimLeftSnoc(s, c);
    var l := TrimLeft(s);
    if l != "" {
      assert (l + [c])[..|l|] == l;
    }
  }

  /** White space at the end of a text changes no name. */
  lemma SpaceAtEnd(s: string, c: char)
    requires IsSpace(c)
    ensures NonBlank(Split(s + [c], '\n')) == NonBlank(Split(s, '\n'))
  {
    var p := Split(s, '\n');
    var init, last := p[..|p| - 1], p[|p| - 1];
    assert p == init + [last];
    NonBlankConcat(init, [last]);
    NonBlankOne(last);
    if c == '\n' {
      var none := "";
      SplitConcat(s, none, '\n');
      assert s + ['\n'] + none == s + [c];
      NonBlankConcat(p, [none]);
      NonBlankOne(none);
    } else {
      SplitAppend(s, [c], '\n');
      SplitWithoutSeparator([c], '\n');
      assert Split(s + [c], '\n') == init + [last + [c]];
      NonBlankConcat(init, [last + [c]]);
      NonBlankOne(last + [c]);
      TrimSpaceSnoc(last, c);
    }
  }

  /** The names in a text, line by line. */
  function NamesIn(text: string): seq<string> {
    NonBlank(Split(text, '\n'))
  }

  lemma {:induction false} TrimRightKeepsNames(s: string)
    ensures NamesIn(TrimRight(s)) == NamesIn(s)
    decreases |s|
  {
    if s != "" && IsSpace(s[|s| - 1]) {
      var init, c := s[..|s| - 1], s[|s| - 1];
      assert TrimRight(s) == TrimRight(init);
      TrimRightKeepsNames(init);
      SpaceAtEnd(init, c);
      assert init + [c] == s;
    }
  }

  lemma {:induction false} TrimRightPad(s: string, pad: string)
    requires Blank(pad)
    ensures TrimRight(s + pad) == TrimRight(s)
    decreases |pad|
  {
    if pad == "" {
      assert s + pad == s;
    } else {
      var n := |pad| - 1;
      TrimRightPad(s, pad[..n]);
      assert (s + pad)[..|s + pad| - 1] == s + pad[..n];
    }
  }

  lemma {:induction false} SplitOfPrinted(cursor: string, keys: seq<string>)
    requires '\n' !in cursor
    ensures Split(Join([cursor] + keys, '\n'), '\n') == [cursor] + Pieces(keys)
    decreases |keys|
  {
    if keys == [] {
      assert [cursor] + keys == [cursor];
      SplitWithoutSeparator(cursor, '\n');
    } else {
      var n := |keys| - 1;
      var init, k := [cursor] + keys[..n], keys[n];
      SplitOfPrinted(cursor, keys[..n]);
      assert [cursor] + keys == init + [k];
      JoinSnoc(init, k);
      assert [cursor] + (Pieces(keys[..n]) + Split(k, '\n')) == [cursor] + Pieces(keys[..n]) + Split(k, '\n');
    }
  }

  lemma JoinSnoc(init: seq<string>, k: string)
    requires init != []
    ensures Split(Join(init + [k], '\n'), '\n') == Split(Join(init, '\n'), '\n') + Split(k, '\n')
  {
    JoinConcat(init, [k], '\n');
    SplitConcat(Join(init, '\n'), k, '\n');
  }

  /** A cursor as the server sends it. */
  predicate IsCursor(s: string) {
    s != "" && forall i | 0 <= i < |s| :: '0' <= s[i] <= '9'
  }

  lemma CursorIsPlain(cursor: string)
    requires IsCursor(cursor)
    ensures '\n' !in cursor && Survives(cursor) && NonBlank([cursor]) == [cursor]
  {
    NonBlankOne(cursor);
    assert Trimmed(cursor);
    TrimSpaceFixesExactlyTrimmed(cursor);
  }

  lemma NamesInBody(cursor: string, keys: seq<string>)
    requires '\n' !in cursor && NonBlank([cursor]) == [cursor]
    ensures NamesIn(Join([cursor] + keys, '\n')) == [cursor] + Names(keys)
  {
    SplitOfPrinted(cursor, keys);
    NonBlankConcat([cursor], Pieces(keys));
  }

  lemma NamesInPrinted(cursor: string, keys: seq<string>, pad: string)
    requires IsCursor(cursor) && Blank(pad)
    ensures var t := TrimSpace(Printed(cursor, keys, pad));
            t != "" && !IsSpace(t[0]) && NamesIn(t) == [cursor] + Names(keys)
  {
    var body := Join([cursor] + keys, '\n');
    var text := body + pad;
    CursorIsPlain(cursor);
    assert !IsSpace(cursor[0]);
    JoinStartsWith(cursor, keys);
    assert text[0] == cursor[0] && TrimLeft(text) == text;
    TrimRightPad(body, pad);
    TrimRightKeepsNames(body);
    TrimRightKeepsFirst(text);
    TrimRightShortens(text);
    NamesInBody(cursor, keys);
  }

  /** The first line of a text that does not start with white space holds the first name. */
  lemma FirstLineFirstName(t: string)
    requires t != "" && !IsSpace(t[0])
    ensures var lines := Split(t, '\n'); NamesIn(t) == [TrimSpace(lines[0])] + NonBlank(lines[1..])
  {
    var lines := Split(t, '\n');
    var head, tail := lines[0], lines[1..];
    FirstPieceNotBlank(t);
    assert lines == [head] + tail;
    NonBlankConcat([head], tail);
    NonBlankOne(head);
  }

  lemma SameHeadAndTail(x: string, xs: seq<string>, y: string, ys: seq<string>)
    requires [x] + xs == [y] + ys
    ensures x == y && xs == ys
  {
    assert ([x] + xs)[0] == ([y] + ys)[0] && ([x] + xs)[1..] == ([y] + ys)[1..];
  }

  /** A printed reply is read back: the cursor exactly, and of each key its lines, trimmed, the blank ones
      dropped. */
  lemma ReplyReadsBack(cursor: string, keys: seq<string>, pad: string)
    requires IsCursor(cursor) && Blank(pad)
    ensures var lines := Split(TrimSpace(Printed(cursor, keys, pad)), '\n');
            TrimSpace(lines[0]) == cursor && NonBlank(lines[1..]) == Names(keys)
  {
    var t := TrimSpace(Printed(cursor, keys, pad));
    NamesInPrinted(cursor, keys, pad);
    FirstLineFirstName(t);
    SameHeadAndTail(TrimSpace(Split(t, '\n')[0]), NonBlank(Split(t, '\n')[1..]), cursor, Names(keys));
  }

  lemma JoinStartsWith(cursor: string, keys: seq<string>)
    requires cursor != ""
    ensures Join([cursor] + keys, '\n') != "" && Join([cursor] + keys, '\n')[0] == cursor[0]
  {
    if keys == [] {
      assert [cursor] + keys == [cursor];
    } else {
      JoinConcat([cursor], keys, '\n');
    }
  }

  lemma {:induction false} TrimRightKeepsFirst(s: string)
    requires s != "" && !IsSpace(s[0])
    ensures TrimRight(s) != ""
    decreases |s|
  {
    if IsSpace(s[|s| - 1]) {
      TrimRightKeepsFirst(s[..|s| - 1]);
    }
  }

  lemma FirstPieceNotBlank(s: string)
    requires s != "" && !IsSpace(s[0])
    ensures TrimSpace(Split(s, '\n')[0]) != ""
  {
    var rest := Split(s[1..], '\n');
    var x := [s[0]] + rest[0];
    assert Split(s, '\n')[0] == x;
    TrimRightKeepsFirst(x);
    assert TrimLeft(x) == x;
  }

  // ------------------------------------------------------------------------------ keys and names

  /** A key of the site, by the pattern SCAN is given, for an ID free of glob characters. */
  predicate IsKeyOf(siteID: string, k: string) {
    StartsWith(k, "site_" + siteID + ":")
  }

  lemma StartsAt(s: string, prefix: string, i: nat)
    requires StartsWith(s, prefix) && i < |prefix|
    ensures s[i] == prefix[i]
  {
    assert s[..|prefix|][i] == s[i];
  }

  lemma LongerOwner(a: string, b: string, k: string)
    requires ':' !in b && |a| < |b| && IsKeyOf(b, k)
    ensures !IsKeyOf(a, k)
  {
    var p, q := "site_" + a + ":", "site_" + b + ":";
    StartsAt(k, q, |a| + 5);
    assert k[|a| + 5] == b[|a|] != ':';
    assert p[|a| + 5] == ':';
    if IsKeyOf(a, k) {
      StartsAt(k, p, |a| + 5);
    }
  }

  /** No key belongs to two sites whose IDs are free of colons. */
  lemma OneOwner(a: string, b: string, k: string)
    requires ':' !in a && ':' !in b && IsKeyOf(a, k) && a != b
    ensures !IsKeyOf(b, k)
  {
    if |a| < |b| {
      if IsKeyOf(b, k) {
        LongerOwner(a, b, k);
      }
    } else if |b| < |a| {
      LongerOwner(b, a, k);
    } else {
      var p, q := "site_" + a + ":", "site_" + b + ":";
      assert p[5..|p| - 1] == a && q[5..|q| - 1] == b;
    }
  }

  /** A key that comes through the line splitting and trimming as it is. */
  predicate Survives(k: string) {
    k != "" && '\n' !in k && Trimmed(k)
  }

  lemma SurvivorNamesItself(k: string)
    requires Survives(k)
    ensures NamesIn(k) == [k]
  {
    SplitWithoutSeparator(k, '\n');
    TrimSpaceFixesExactlyTrimmed(k);
    NonBlankOne(k);
  }

  lemma NamesSnoc(init: seq<string>, k: string)
    ensures Names(init + [k]) == Names(init) + NamesIn(k)
  {
    assert (init + [k])[..|init|] == init;
    NonBlankConcat(Pieces(init), Split(k, '\n'));
  }

  /** The name is on a line of one of the keys. */
  ghost predicate OnSomeKey(keys: seq<string>, n: string) {
    exists i :: 0 <= i < |keys| && n in NamesIn(keys[i])
  }

  lemma OnSomeKeySnoc(init: seq<string>, k: string, n: string)
    ensures OnSomeKey(init + [k], n) <==> OnSomeKey(init, n) || n in NamesIn(k)
  {
    var keys := init + [k];
    if OnSomeKey(init, n) {
      var i :| 0 <= i < |init| && n in NamesIn(init[i]);
      assert keys[i] == init[i];
    }
    assert keys[|init|] == k;
  }

  lemma NamesOfMoreKeys(init: seq<string>, k: string, n: string)
    requires n in Names(init) <==> OnSomeKey(init, n)
    ensures n in Names(init + [k]) <==> OnSomeKey(init + [k], n)
  {
    NamesSnoc(init, k);
    OnSomeKeySnoc(init, k, n);
  }

  lemma {:induction false} NamesOfKeys(keys: seq<string>, n: string)
    ensures n in Names(keys) <==> OnSomeKey(keys, n)
    decreases |keys|
  {
    if keys == [] {
      assert Names(keys) == [];
    } else {
      var init, k := keys[..|keys| - 1], keys[|keys| - 1];
      assert keys == init + [k];
      NamesOfKeys(init, n);
      NamesOfMoreKeys(init, k, n);
    }
  }

  // ------------------------------------------------------------------------------ the flush

  datatype Reply = Reply(cursor: string, keys: seq<string>, pad: string)

  /** One turn of the loop, as the outside decides it: the server's contents before SCAN and when it runs,
      what SCAN prints unless it fails, the contents before DEL and when it runs, and what becomes of DEL:
      whether redis-cli exits with 0, and whether the server removes the keys. Neither implies the other:
      redis-cli prints an error reply and exits with 0. */
  datatype Turn = Turn(beforeScan: seq<set<string>>, atScan: set<string>, out: Option<string>,
                       beforeDel: seq<set<string>>, atDel: set<string>, delOk: bool, removes: bool)

  datatype Outcome = Finished | Failed | StillScanning

  class Server {
    var keys: set<string>
  }

  function CursorOf(out: string): string {
    TrimSpace(Split(TrimSpace(out), '\n')[0])
  }

  function NamesOf(out: string): seq<string> {
    NonBlank(Split(TrimSpace(out), '\n')[1..])
  }

  /** What the handled replies asked for has been deleted, and nothing else. */
  ghost predicate DeletedByReplies(deleted: seq<string>, outs: seq<string>) {
    && (forall i, n | 0 <= i < |outs| && n in NamesOf(outs[i]) :: n in deleted)
    && (forall n | n in deleted :: exists i :: 0 <= i < |outs| && n in NamesOf(outs[i]))
  }

  ghost predicate AbsentOnce(moments: seq<set<string>>, k: string) {
    exists j :: 0 <= j < |moments| && k !in moments[j]
  }

  ghost predicate AllAbsentOnce(moments: seq<set<string>>, names: seq<string>) {
    forall n | n in names :: AbsentOnce(moments, n)
  }

  lemma AbsentExtends(moments: seq<set<string>>, names: seq<string>, longer: seq<set<string>>)
    requires AllAbsentOnce(moments, names) && moments <= longer
    ensures AllAbsentOnce(longer, names)
  {
    forall n | n in names ensures AbsentOnce(longer, n) {
      var j :| 0 <= j < |moments| && n !in moments[j];
      assert longer[j] == moments[j];
    }
  }

  lemma AbsentBoth(moments: seq<set<string>>, a: seq<string>, b: seq<string>)
    requires AllAbsentOnce(moments, a) && AllAbsentOnce(moments, b)
    ensures AllAbsentOnce(moments, a + b)
  {
  }

  lemma AbsentNow(moments: seq<set<string>>, names: seq<string>)
    requires moments != [] && forall n | n in names :: n !in moments[|moments| - 1]
    ensures AllAbsentOnce(moments, names)
  {
  }

  /** A turn as the loop takes it: whether it gets through, which is when SCAN prints a cursor and redis-cli
      exits with 0 from DEL if there is anything to delete; whether the cursor is the last one; the names
      to delete; and what the server holds meanwhile and afterwards. */
  datatype Seen = Seen(out: string, ok: bool, last: bool, names: seq<string>,
                       meanwhile: seq<set<string>>, after: set<string>)

  function View(turn: Turn): Seen {
    if turn.out.None? then Seen("", false, false, [], turn.beforeScan, turn.atScan)
    else
      var out, cursor, names := turn.out.value, CursorOf(turn.out.value), NamesOf(turn.out.value);
      if cursor == "" then Seen(out, false, false, [], turn.beforeScan, turn.atScan)
      else if names == [] then Seen(out, true, cursor == "0", names, turn.beforeScan, turn.atScan)
      else
        var meanwhile := turn.beforeScan + [turn.atScan] + turn.beforeDel;
        if turn.removes then
          Seen(out, turn.delOk, cursor == "0", names, meanwhile + [turn.atDel], turn.atDel - (set n | n in names))
        else Seen(out, turn.delOk, cursor == "0", names, meanwhile, turn.atDel)
  }

  function Views(script: seq<Turn>): seq<Seen> {
    if script == [] then [] else Views(script[..|script| - 1]) + [View(script[|script| - 1])]
  }

  /** A turn whose SCAN prints a server's reply: it gets through unless there is something to delete and
      redis-cli fails at that; an empty page gets through, and only the cursor 0 is the last. */
  lemma ViewOfReply(turn: Turn, cursor: string, keys: seq<string>, pad: string)
    requires IsCursor(cursor) && Blank(pad) && turn.out == Some(Printed(cursor, keys, pad))
    ensures var v := View(turn);
            && v.names == Names(keys) && v.out == turn.out.value
            && (v.ok <==> Names(keys) == [] || turn.delOk)
            && (v.last <==> cursor == "0")
            && (Names(keys) == [] ==> v.after == turn.atScan)
            && (Names(keys) != [] ==>
                  v.after == if turn.removes then turn.atDel - (set n | n in Names(keys)) else turn.atDel)
  {
    ReplyReadsBack(cursor, keys, pad);
  }

  /** A turn whose SCAN fails, or prints nothing, does not get through. */
  lemma ViewOfFailure(turn: Turn)
    requires turn.out == None || Blank(turn.out.value)
    ensures !View(turn).ok && View(turn).after == turn.atScan
  {
    if turn.out.Some? {
      TrimOfBlank(turn.out.value);
      var none := "";
      assert Split(none, '\n') == [none];
    }
  }

  lemma {:induction false} TrimOfBlank(s: string)
    requires Blank(s)
    ensures TrimSpace(s) == ""
  {
    if s != "" {
      TrimOfBlank(s[1..]);
    }
  }

  lemma {:induction false} ViewsAt(script: seq<Turn>, t: nat)
    requires t < |script|
    ensures |Views(script)| == |script| && Views(script)[t] == View(script[t])
  {
    var n := |script| - 1;
    if t < n {
      ViewsAt(script[..n], t);
    } else if n > 0 {
      ViewsAt(script[..n], 0);
    }
  }

  /** Where the server removes what it is asked to, nothing of it is left afterwards. */
  predicate Honoured(v: Seen) {
    forall n | n in v.names :: n !in v.after
  }

  /** redis-cli's exit status does not decide it: the server must have removed the names, or held none of
      them anyway. */
  lemma HonouredExactly(turn: Turn)
    requires View(turn).ok
    ensures Honoured(View(turn)) <==> turn.removes || forall n | n in View(turn).names :: n !in turn.atDel
  {
  }

  /** One turn of the loop: SCAN, take the reply apart, DEL. */
  method RunTurn(server: Server, script: seq<Turn>, t: nat) returns (ok: bool, cursor: string, names: seq<string>)
    requires t < |script|
    modifies server
    ensures t < |Views(script)| && server.keys == Views(script)[t].after && ok == Views(script)[t].ok
    ensures ok ==> names == Views(script)[t].names && (cursor == "0" <==> Views(script)[t].last)
  {
    ViewsAt(script, t);
    var turn := script[t];
    server.keys := turn.atScan;
    ok, cursor, names := false, "", [];
    if turn.out.Some? {
      cursor, names := ParseReply(turn.out.value);
      if cursor != "" {
        ok := true;
        if |names| > 0 {
          server.keys := turn.atDel;
          if turn.removes {
            server.keys := server.keys - (set n | n in names);
          }
          ok := turn.delOk;
        }
      }
    }
  }

  /** The server's contents from the start through the first n turns. */
  function Trace(initial: set<string>, vs: seq<Seen>, n: nat): (moments: seq<set<string>>)
    requires n <= |vs|
    ensures moments != []
  {
    if n == 0 then [initial] else Trace(initial, vs, n - 1) + vs[n - 1].meanwhile + [vs[n - 1].after]
  }

  /** The loop gets through the first n turns and goes on after each. */
  predicate GoesOn(vs: seq<Seen>, n: nat)
    requires n <= |vs|
  {
    forall i | 0 <= i < n :: vs[i].ok && !vs[i].last
  }

  /** How the loop ends, from the script alone: the first n turns are handled. */
  predicate EndsAs(outcome: Outcome, vs: seq<Seen>, n: nat)
    requires n <= |vs|
  {
    match outcome
    case Finished => n > 0 && GoesOn(vs, n - 1) && vs[n - 1].ok && vs[n - 1].last
    case Failed => n < |vs| && GoesOn(vs, n) && !vs[n].ok
    case StillScanning => n == |vs| && GoesOn(vs, n)
  }

  /** The names sent to DEL in the first n turns. */
  function Asked(vs: seq<Seen>, n: nat): seq<string>
    requires n <= |vs|
  {
    if n == 0 then [] else Asked(vs, n - 1) + vs[n - 1].names
  }

  function LastOf(moments: seq<set<string>>): set<string>
    requires moments != []
  {
    moments[|moments| - 1]
  }

  /** What is so once t turns have been handled and none was the last. */
  ghost predicate Running(vs: seq<Seen>, t: nat, total: nat, initial: set<string>, keys: set<string>) {
    t <= |vs| && GoesOn(vs, t) && total == |Asked(vs, t)| && keys == LastOf(Trace(initial, vs, t))
  }

  lemma TurnRuns(vs: seq<Seen>, t: nat, total: nat, initial: set<string>)
    requires t < |vs| && GoesOn(vs, t) && total == |Asked(vs, t)|
    ensures vs[t].after == LastOf(Trace(initial, vs, t + 1)) && total + |vs[t].names| == |Asked(vs, t + 1)|
    ensures if !vs[t].ok then EndsAs(Failed, vs, t)
            else if vs[t].last then EndsAs(Finished, vs, t + 1)
            else Running(vs, t + 1, total + |vs[t].names|, initial, vs[t].after)
  {
  }

  /** FlushSiteKeys. n is the number of turns handled. The loop ends at the first cursor 0, or at the first
      turn that fails, or goes on for longer than the script. The total counts every name sent to DEL, so
      a key returned twice counts twice, and so does one that the server did not remove. */
  method FlushSiteKeys(server: Server, script: seq<Turn>) returns (outcome: Outcome, total: nat, ghost n: nat)
    modifies server
    ensures n <= |Views(script)| == |script| && EndsAs(outcome, Views(script), n)
    ensures total == |Asked(Views(script), n)|
    ensures server.keys == LastOf(Trace(old(server.keys), Views(script), n + if outcome == Failed then 1 else 0))
  {
    ghost var initial, vs := server.keys, Views(script);
    if script != [] {
      ViewsAt(script, 0);
    }
    outcome, total, n := StillScanning, 0, 0;
    for t := 0 to |script|
      invariant outcome == StillScanning && n == t && Running(vs, t, total, initial, server.keys)
    {
      var ok, cursor, names := RunTurn(server, script, t);
      TurnRuns(vs, t, total, initial);
      if !ok {
        outcome := Failed;
        break;
      }
      total, n := total + |names|, t + 1;
      if cursor == "0" {
        outcome := Finished;
        break;
      }
    }
  }

  lemma {:induction false} AskedNames(vs: seq<Seen>, n: nat, k: string)
    requires n <= |vs|
    ensures k in Asked(vs, n) <==> exists i :: 0 <= i < n && k in vs[i].names
  {
    if n > 0 {
      AskedNames(vs, n - 1, k);
    }
  }

  lemma ViewNames(turn: Turn)
    requires View(turn).ok
    ensures turn.out == Some(View(turn).out) && View(turn).names == NamesOf(View(turn).out)
  {
  }

  /** What DEL was asked for is what the handled replies name, and nothing else. */
  lemma AskedIsNamed(script: seq<Turn>, n: nat, outs: seq<string>)
    requires |outs| == n <= |Views(script)| == |script|
    requires forall i | 0 <= i < n :: Views(script)[i].ok && outs[i] == Views(script)[i].out
    ensures DeletedByReplies(Asked(Views(script), n), outs)
  {
    var vs := Views(script);
    forall i | 0 <= i < n ensures vs[i].names == NamesOf(outs[i]) {
      ViewsAt(script, i);
      ViewNames(script[i]);
    }
    forall k ensures k in Asked(vs, n) <==> exists i :: 0 <= i < n && k in NamesOf(outs[i]) {
      AskedNames(vs, n, k);
    }
  }

  lemma TurnAbsents(moments: seq<set<string>>, asked: seq<string>, v: Seen)
    requires AllAbsentOnce(moments, asked) && Honoured(v)
    ensures AllAbsentOnce(moments + v.meanwhile + [v.after], asked + v.names)
  {
    var longer := moments + v.meanwhile + [v.after];
    assert longer == moments + (v.meanwhile + [v.after]);
    AbsentExtends(moments, asked, longer);
    AbsentNow(longer, v.names);
    AbsentBoth(longer, asked, v.names);
  }

  /** Where the server removes what it is asked to, each of these names has been gone at some moment. */
  lemma {:induction false} AskedHasBeenAbsent(initial: set<string>, vs: seq<Seen>, n: nat)
    requires n <= |vs| && forall i | 0 <= i < n :: Honoured(vs[i])
    ensures AllAbsentOnce(Trace(initial, vs, n), Asked(vs, n))
  {
    if n > 0 {
      AskedHasBeenAbsent(initial, vs, n - 1);
      TurnAbsents(Trace(initial, vs, n - 1), Asked(vs, n - 1), vs[n - 1]);
    }
  }

  /** The total is at least the number of different names. */
  lemma TotalCoversAsked(vs: seq<Seen>, n: nat)
    requires n <= |vs|
    ensures |Asked(vs, n)| >= |set k | k in Asked(vs, n)|
  {
    Distinct(Asked(vs, n));
  }

  // ------------------------------------------------------------------------------ what a flush achieves

  /** The replies are what the server sent. */
  ghost predicate Honest(outs: seq<string>, replies: seq<Reply>) {
    && |outs| == |replies|
    && forall i | 0 <= i < |outs| ::
         IsCursor(replies[i].cursor) && Blank(replies[i].pad)
         && outs[i] == Printed(replies[i].cursor, replies[i].keys, replies[i].pad)
  }

  /** SCAN's guarantee for a full iteration: a key of the pattern that is there from start to end is
      returned at least once. */
  ghost predicate ScanGuarantee(siteID: string, replies: seq<Reply>, moments: seq<set<string>>) {
    forall k | IsKeyOf(siteID, k) && !AbsentOnce(moments, k) :: exists i :: 0 <= i < |replies| && k in replies[i].keys
  }

  /** Every key returned matches the pattern. */
  ghost predicate OnlyMatches(siteID: string, replies: seq<Reply>) {
    forall i, k | 0 <= i < |replies| && k in replies[i].keys :: IsKeyOf(siteID, k)
  }

  lemma ReturnedIsDeleted(deleted: seq<string>, outs: seq<string>, replies: seq<Reply>, i: nat, k: string)
    requires DeletedByReplies(deleted, outs) && Honest(outs, replies)
    requires i < |replies| && k in replies[i].keys && Survives(k)
    ensures k in deleted
  {
    var j :| 0 <= j < |replies[i].keys| && replies[i].keys[j] == k;
    ReplyReadsBack(replies[i].cursor, replies[i].keys, replies[i].pad);
    SurvivorNamesItself(k);
    assert k in NamesIn(replies[i].keys[j]);
    NamesOfKeys(replies[i].keys, k);
    assert k in NamesOf(outs[i]);
  }

  /** After a flush that finished, every key of the site that comes through the parsing has been gone at
      some moment; so none of the initial ones is left unless somebody put it back. */
  lemma FlushLeavesNone(siteID: string, deleted: seq<string>, outs: seq<string>, replies: seq<Reply>,
                        moments: seq<set<string>>, k: string)
    requires DeletedByReplies(deleted, outs) && AllAbsentOnce(moments, deleted) && moments != []
    requires Honest(outs, replies) && ScanGuarantee(siteID, replies, moments)
    requires IsKeyOf(siteID, k) && Survives(k)
    ensures AbsentOnce(moments, k)
    ensures (forall j | 0 < j < |moments| :: k in moments[j] ==> k in moments[j - 1]) ==> k !in moments[|moments| - 1]
  {
    if !AbsentOnce(moments, k) {
      var i :| 0 <= i < |replies| && k in replies[i].keys;
      ReturnedIsDeleted(deleted, outs, replies, i, k);
    }
    if forall j | 0 < j < |moments| :: k in moments[j] ==> k in moments[j - 1] {
      var j :| 0 <= j < |moments| && k !in moments[j];
      StaysAbsent(moments, k, j, |moments| - 1);
    }
  }

  lemma {:induction false} StaysAbsent(moments: seq<set<string>>, k: string, i: nat, j: nat)
    requires i <= j < |moments| && k !in moments[i]
    requires forall j | 0 < j < |moments| :: k in moments[j] ==> k in moments[j - 1]
    ensures k !in moments[j]
  {
    if i < j {
      StaysAbsent(moments, k, i, j - 1);
    }
  }

  /** Every line of every returned key, blank ones aside, begins with the site's prefix. */
  ghost predicate LinesAreKeysOf(siteID: string, replies: seq<Reply>) {
    forall i, k, n | 0 <= i < |replies| && k in replies[i].keys && n in NamesIn(k) :: IsKeyOf(siteID, n)
  }

  lemma LineIsDeleted(deleted: seq<string>, outs: seq<string>, replies: seq<Reply>, i: nat, k: string, n: string)
    requires DeletedByReplies(deleted, outs) && Honest(outs, replies)
    requires i < |replies| && k in replies[i].keys && n in NamesIn(k)
    ensures n in deleted
  {
    var j :| 0 <= j < |replies[i].keys| && replies[i].keys[j] == k;
    ReplyReadsBack(replies[i].cursor, replies[i].keys, replies[i].pad);
    NamesOfKeys(replies[i].keys, n);
    assert n in NamesOf(outs[i]);
  }

  lemma DeletedIsLine(deleted: seq<string>, outs: seq<string>, replies: seq<Reply>, n: string)
      returns (i: nat, k: string)
    requires DeletedByReplies(deleted, outs) && Honest(outs, replies) && n in deleted
    ensures i < |replies| && k in replies[i].keys && n in NamesIn(k)
  {
    i :| 0 <= i < |outs| && n in NamesOf(outs[i]);
    ReplyReadsBack(replies[i].cursor, replies[i].keys, replies[i].pad);
    NamesOfKeys(replies[i].keys, n);
    var j :| 0 <= j < |replies[i].keys| && n in NamesIn(replies[i].keys[j]);
    k := replies[i].keys[j];
  }

  /** A flush deletes nothing but keys of its site exactly when every line of every returned key is one. */
  lemma FlushDeletesOnlyOwnExactly(siteID: string, deleted: seq<string>, outs: seq<string>, replies: seq<Reply>)
    requires DeletedByReplies(deleted, outs) && Honest(outs, replies)
    ensures (forall n | n in deleted :: IsKeyOf(siteID, n)) <==> LinesAreKeysOf(siteID, replies)
  {
    if forall n | n in deleted :: IsKeyOf(siteID, n) {
      forall i, k, n | 0 <= i < |replies| && k in replies[i].keys && n in NamesIn(k) ensures IsKeyOf(siteID, n) {
        LineIsDeleted(deleted, outs, replies, i, k, n);
      }
    }
    if LinesAreKeysOf(siteID, replies) {
      forall n | n in deleted ensures IsKeyOf(siteID, n) {
        var i, k := DeletedIsLine(deleted, outs, replies, n);
      }
    }
  }

  /** And it deletes a key of another site exactly when a line of a returned key is one. */
  lemma FlushSparesOthersExactly(other: string, deleted: seq<string>, outs: seq<string>, replies: seq<Reply>)
    requires DeletedByReplies(deleted, outs) && Honest(outs, replies)
    ensures (exists n :: n in deleted && IsKeyOf(other, n)) <==>
            exists i, k, n :: 0 <= i < |replies| && k in replies[i].keys && n in NamesIn(k) && IsKeyOf(other, n)
  {
    if n :| n in deleted && IsKeyOf(other, n) {
      var i, k := DeletedIsLine(deleted, outs, replies, n);
    }
    if i, k, n :| 0 <= i < |replies| && k in replies[i].keys && n in NamesIn(k) && IsKeyOf(other, n) {
      LineIsDeleted(deleted, outs, replies, i, k, n);
    }
  }

  lemma NamesOfTwoLines(a: string, b: string)
    requires Survives(a) && Survives(b)
    ensures NamesIn(a + "\n" + b) == [a, b]
  {
    SurvivorNamesItself(a);
    SurvivorNamesItself(b);
    SplitConcat(a, b, '\n');
    NonBlankConcat(Split(a, '\n'), Split(b, '\n'));
    assert a + ['\n'] + b == a + "\n" + b;
  }

  /** One reply with one key of the site, in which a newline is followed by a key of another site. */
  function TwoLineReply(mine: string, theirs: string): Reply {
    Reply("0", [mine + "\n" + theirs], "\n")
  }

  /** Flushing one site can delete a key of another: the server is honest, the key it returns matches the
      pattern and is a key of the flushed site alone, but its second line names the other site's key,
      and that is deleted, not the key that was returned. */
  lemma NewlineKeyDeletesAnothers(siteID: string, other: string, mine: string, theirs: string, deleted: seq<string>)
    requires ':' !in siteID && ':' !in other && siteID != other
    requires IsKeyOf(siteID, mine) && IsKeyOf(other, theirs) && Survives(mine) && Survives(theirs)
    ensures var reply := TwoLineReply(mine, theirs);
            var outs := [Printed(reply.cursor, reply.keys, reply.pad)];
            && Honest(outs, [reply]) && OnlyMatches(siteID, [reply]) && !IsKeyOf(other, reply.keys[0])
            && (DeletedByReplies(deleted, outs) ==>
                  theirs in deleted && !IsKeyOf(siteID, theirs) && reply.keys[0] !in deleted)
  {
    var reply := TwoLineReply(mine, theirs);
    var key := mine + "\n" + theirs;
    var outs := [Printed(reply.cursor, reply.keys, reply.pad)];
    var p := "site_" + siteID + ":";
    assert key[..|p|] == mine[..|p|];
    OneOwner(siteID, other, key);
    OneOwner(other, siteID, theirs);
    NamesOfTwoLines(mine, theirs);
    if DeletedByReplies(deleted, outs) {
      LineIsDeleted(deleted, outs, [reply], 0, key, theirs);
      if key in deleted {
        var i, k := DeletedIsLine(deleted, outs, [reply], key);
      }
    }
  }

  /** For any two sites, such a key and its victim: site_A:x, a newline, site_B:y. */
  lemma SuchKeysExist(siteID: string, other: string)
    requires '\n' !in siteID && '\n' !in other
    ensures var mine, theirs := "site_" + siteID + ":x", "site_" + other + ":y";
            IsKeyOf(siteID, mine) && IsKeyOf(other, theirs) && Survives(mine) && Survives(theirs)
  {
    KeyShape(siteID, 'x');
    KeyShape(other, 'y');
  }

  lemma KeyShape(siteID: string, c: char)
    requires '\n' !in siteID && !IsSpace(c)
    ensures IsKeyOf(siteID, "site_" + siteID + ":" + [c]) && Survives("site_" + siteID + ":" + [c])
  {
    var k := "site_" + siteID + ":" + [c];
    assert k[0] == 's' && k[|k| - 1] == c;
  }

  /** Names deleted twice count twice. */
  lemma {:induction false} Distinct(deleted: seq<string>)
    ensures |set n | n in deleted| <= |deleted|
  {
    if deleted != [] {
      var init, x := deleted[..|deleted| - 1], deleted[|deleted| - 1];
      Distinct(init);
      assert (set n | n in deleted) == (set n | n in init) + {x};
    }
  }
}
