/**
 The table of task name symbols (freertos/src/stats.c): twelve slots, filled in place
 the first time a name is looked up, found again on every later look-up. Names are
 compared with strncmp() over sixteen characters, so the table is a map from the
 first sixteen characters of a name, cut at a terminating NUL, to its symbol.
 */
module TaskNames {

  const MAX_TASKS := 12
  const MAX_TASK_NAME_LEN := 16
  const NUL: char := '\0'

  type Symbol = nat  // zero is "no symbol"

  // ----- comparing names -----

  /** The character a C string shows at k: past its end there is a NUL. */
  function At(name: string, k: nat): char {
    if k < |name| then name[k] else NUL
  }

  /** strncmp(a, b, n) == 0, looking from position k on. */
  predicate SameFrom(a: string, b: string, k: nat, n: nat)
    requires k <= n
    decreases n - k
  {
    k == n || (At(a, k) == At(b, k) && (At(a, k) == NUL || SameFrom(a, b, k + 1, n)))
  }

  predicate SameName(a: string, b: string) {
    SameFrom(a, b, 0, MAX_TASK_NAME_LEN)
  }

  /** The characters from k on that the comparison looks at. */
  function KeyFrom(name: string, k: nat, n: nat): string
    requires k <= n
    decreases n - k
  {
    if k == n || At(name, k) == NUL then [] else [name[k]] + KeyFrom(name, k + 1, n)
  }

  function Key(name: string): string {
    KeyFrom(name, 0, MAX_TASK_NAME_LEN)
  }

  lemma {:induction false} SameIsSameKey(a: string, b: string, k: nat, n: nat)
    requires k <= n
    ensures SameFrom(a, b, k, n) <==> KeyFrom(a, k, n) == KeyFrom(b, k, n)
    decreases n - k
  {
    if k < n && At(a, k) == At(b, k) != NUL {
      SameIsSameKey(a, b, k + 1, n);
      assert KeyFrom(a, k, n)[1..] == KeyFrom(a, k + 1, n);
      assert KeyFrom(b, k, n)[1..] == KeyFrom(b, k + 1, n);
    } else if k < n && At(a, k) != NUL && At(b, k) != NUL {
      assert KeyFrom(a, k, n)[0] != KeyFrom(b, k, n)[0];
    }
  }

  /**
   Two names are the same exactly if at each of the first sixteen places they show the
   same character, up to and including the first NUL.
   */
  lemma SameNameIsSameCharacters(a: string, b: string)
    ensures SameName(a, b) <==> forall k: nat ::
      k < 16 && (forall j: nat :: j < k ==> At(a, j) == At(b, j) != '\0') ==> At(a, k) == At(b, k)
  {
    SameFromIs(a, b, 0);
  }

  ghost predicate SameSoFar(a: string, b: string, from: nat, to: nat) {
    forall j: nat :: from <= j < to ==> At(a, j) == At(b, j) != '\0'
  }

  lemma {:induction false} SameFromIs(a: string, b: string, k: nat)
    requires k <= 16
    ensures SameFrom(a, b, k, 16) <==> forall i: nat :: k <= i < 16 && SameSoFar(a, b, k, i) ==> At(a, i) == At(b, i)
    decreases 16 - k
  {
    if k < 16 {
      SameFromIs(a, b, k + 1);
      assert SameSoFar(a, b, k, k);
      if At(a, k) == At(b, k) != '\0' {
        forall i: nat | k + 1 <= i < 16 ensures SameSoFar(a, b, k, i) <==> SameSoFar(a, b, k + 1, i) {
        }
      } else {
        assert forall i: nat :: k < i < 16 ==> !SameSoFar(a, b, k, i);
      }
    }
  }

  /** The key of a name without NUL is its first sixteen characters. */
  lemma KeyIsPrefix(name: string)
    requires '\0' !in name
    ensures Key(name) == if |name| <= 16 then name else name[..16]
  {
    KeyFromIs(name, 0);
  }

  lemma {:induction false} KeyFromIs(name: string, k: nat)
    requires k <= 16 && k <= |name| && NUL !in name
    ensures KeyFrom(name, k, 16) == name[k..if |name| <= 16 then |name| else 16]
    decreases 16 - k
  {
    if k < 16 && k < |name| {
      assert name[k] in name;
      KeyFromIs(name, k + 1);
    }
  }

  /** Two names are the same to the table exactly when their keys are. */
  lemma SameNameIsSameKey(a: string, b: string)
    ensures SameName(a, b) <==> Key(a) == Key(b)
  {
    hide SameFrom, KeyFrom;
    SameIsSameKey(a, b, 0, MAX_TASK_NAME_LEN);
  }

  // ----- the ideal table -----

  /** A look-up, with the symbol the trace recorder would hand out if asked to register the name. */
  datatype Call = Call(name: string, answer: Symbol)

  /** The map from keys to symbols: the first call for a key decides. */
  function Ideal(calls: seq<Call>): map<string, Symbol> {
    if calls == [] then map[] else
      var earlier, last := Ideal(calls[..|calls| - 1]), calls[|calls| - 1];
      if Key(last.name) in earlier then earlier else earlier[Key(last.name) := last.answer]
  }

  function KeySet(calls: seq<Call>): set<string> {
    set i | 0 <= i < |calls| :: Key(calls[i].name)
  }

  ghost predicate FirstFor(calls: seq<Call>, i: nat, key: string) {
    i < |calls| && Key(calls[i].name) == key && forall j :: 0 <= j < i ==> Key(calls[j].name) != key
  }

  /** The ideal map knows exactly the keys that were looked up, each with its first answer. */
  lemma {:induction false} IdealIsFirstAnswer(calls: seq<Call>)
    ensures Ideal(calls).Keys == KeySet(calls)
    ensures forall key, i: nat :: FirstFor(calls, i, key) ==> key in Ideal(calls) && Ideal(calls)[key] == calls[i].answer
  {
    hide Key;
    if calls != [] {
      var earlier, last := calls[..|calls| - 1], calls[|calls| - 1];
      IdealIsFirstAnswer(earlier);
      assert KeySet(calls) == KeySet(earlier) + {Key(last.name)};
      forall key, i: nat | FirstFor(calls, i, key)
        ensures key in Ideal(calls) && Ideal(calls)[key] == calls[i].answer
      {
        if i < |earlier| {
          assert FirstFor(earlier, i, key);
        } else {
          assert key !in KeySet(earlier);
        }
      }
    }
  }

  /** A symbol once given for a key is given for it on every later look-up. */
  lemma {:induction false} SymbolsAreKept(calls: seq<Call>, more: seq<Call>, key: string)
    requires key in Ideal(calls)
    ensures key in Ideal(calls + more) && Ideal(calls + more)[key] == Ideal(calls)[key]
  {
    hide Key;
    if more == [] {
      assert calls + more == calls;
    } else {
      var fewer := more[..|more| - 1];
      SymbolsAreKept(calls, fewer, key);
      assert (calls + more)[..|calls + more| - 1] == calls + fewer;
    }
  }

  lemma FirstCall(calls: seq<Call>, key: string) returns (i: nat)
    requires key in KeySet(calls)
    ensures FirstFor(calls, i, key)
  {
    hide Key;
    i := 0;
    while Key(calls[i].name) != key
      invariant i < |calls|
      invariant forall j :: 0 <= j < i ==> Key(calls[j].name) != key
      invariant exists j :: i <= j < |calls| && Key(calls[j].name) == key
      decreases |calls| - i
    {
      i := i + 1;
    }
  }

  /** The recorder is asked only by the first call for a key. */
  ghost predicate Asked(calls: seq<Call>, i: nat) {
    i < |calls| && FirstFor(calls, i, Key(calls[i].name))
  }

  /** Every symbol in the table is the answer of a call that asked for it. */
  lemma SymbolWasAnswered(calls: seq<Call>, key: string) returns (i: nat)
    requires key in Ideal(calls)
    ensures Asked(calls, i) && Key(calls[i].name) == key && Ideal(calls)[key] == calls[i].answer
  {
    hide Key, Ideal;
    IdealIsFirstAnswer(calls);
    i := FirstCall(calls, key);
  }

  /**
   If the recorder, each time it is asked, hands out a symbol it has not handed out
   before, different keys have different symbols. What it would have answered for a
   key already in the table does not matter.
   */
  lemma {:induction false} SymbolsTellKeysApart(calls: seq<Call>)
    requires forall i: nat, j: nat :: i < j && Asked(calls, i) && Asked(calls, j) ==> calls[i].answer != calls[j].answer
    ensures forall k, l :: k in Ideal(calls) && l in Ideal(calls) && k != l ==> Ideal(calls)[k] != Ideal(calls)[l]
    ensures forall k :: k in Ideal(calls) ==> exists i :: 0 <= i < |calls| && Ideal(calls)[k] == calls[i].answer
  {
    hide Key, Ideal;
    forall k | k in Ideal(calls) ensures exists i :: 0 <= i < |calls| && Ideal(calls)[k] == calls[i].answer {
      var i := SymbolWasAnswered(calls, k);
    }
    forall k, l | k in Ideal(calls) && l in Ideal(calls) && k != l ensures Ideal(calls)[k] != Ideal(calls)[l] {
      var i := SymbolWasAnswered(calls, k);
      var j := SymbolWasAnswered(calls, l);
    }
  }

  lemma IdealStep(calls: seq<Call>, call: Call)
    ensures Ideal(calls + [call]) ==
      if Key(call.name) in Ideal(calls) then Ideal(calls) else Ideal(calls)[Key(call.name) := call.answer]
  {
    hide Key;
    assert (calls + [call])[..|calls|] == calls;
  }

  // ----- the table in place -----

  datatype Name = NoName | Named(text: string)
  datatype Slot = Slot(sym: Symbol, name: Name)

  /** The first n slots are used, each with a key of the map and its symbol. */
  ghost predicate UsedSlots(slots: seq<Slot>, n: nat, m: map<string, Symbol>)
    requires n <= |slots|
  {
    forall i :: 0 <= i < n ==>
      && slots[i].sym != 0 && slots[i].name.Named?
      && Key(slots[i].name.text) in m && m[Key(slots[i].name.text)] == slots[i].sym
  }

  ghost predicate FreeSlots(slots: seq<Slot>, n: nat)
    requires n <= |slots|
  {
    forall i :: n <= i < |slots| ==> slots[i] == Slot(0, NoName)
  }

  ghost predicate DistinctSlots(slots: seq<Slot>, n: nat, m: map<string, Symbol>)
    requires n <= |slots| && UsedSlots(slots, n, m)
  {
    forall i, j :: 0 <= i < j < n ==> Key(slots[i].name.text) != Key(slots[j].name.text)
  }

  ghost predicate HoldsKey(slots: seq<Slot>, n: nat, m: map<string, Symbol>, key: string)
    requires n <= |slots| && UsedSlots(slots, n, m)
  {
    exists i :: 0 <= i < n && Key(slots[i].name.text) == key
  }

  /** The used slots are a prefix that holds each key of the map once, with its symbol. */
  ghost predicate Represents(slots: seq<Slot>, m: map<string, Symbol>) {
    && |m| <= |slots|
    && UsedSlots(slots, |m|, m)
    && FreeSlots(slots, |m|)
    && DistinctSlots(slots, |m|, m)
    && forall k :: k in m ==> HoldsKey(slots, |m|, m, k)
  }

  lemma RepresentsBound(slots: seq<Slot>, m: map<string, Symbol>)
    requires Represents(slots, m)
    ensures |m| <= |slots|
  {
  }

  lemma StillUsed(slots: seq<Slot>, m: map<string, Symbol>, name: string, sym: Symbol)
    requires |m| < |slots| && UsedSlots(slots, |m|, m) && Key(name) !in m && sym != 0
    ensures UsedSlots(slots[|m| := Slot(sym, Named(name))], |m| + 1, m[Key(name) := sym])
  {
    hide Key;
  }

  lemma StillDistinct(slots: seq<Slot>, m: map<string, Symbol>, name: string, sym: Symbol)
    requires |m| < |slots| && UsedSlots(slots, |m|, m) && DistinctSlots(slots, |m|, m) && Key(name) !in m && sym != 0
    ensures UsedSlots(slots[|m| := Slot(sym, Named(name))], |m| + 1, m[Key(name) := sym])
    ensures DistinctSlots(slots[|m| := Slot(sym, Named(name))], |m| + 1, m[Key(name) := sym])
  {
    hide Key;
    StillUsed(slots, m, name, sym);
  }

  lemma StillHeld(slots: seq<Slot>, m: map<string, Symbol>, name: string, sym: Symbol, k: string)
    requires |m| < |slots| && UsedSlots(slots, |m|, m) && Key(name) !in m && sym != 0
    requires k in m ==> HoldsKey(slots, |m|, m, k)
    requires k in m || k == Key(name)
    ensures UsedSlots(slots[|m| := Slot(sym, Named(name))], |m| + 1, m[Key(name) := sym])
    ensures HoldsKey(slots[|m| := Slot(sym, Named(name))], |m| + 1, m[Key(name) := sym], k)
  {
    hide Key;
    StillUsed(slots, m, name, sym);
    var longer := slots[|m| := Slot(sym, Named(name))];
    if k in m {
      var i :| 0 <= i < |m| && Key(slots[i].name.text) == k;
      assert Key(longer[i].name.text) == k;
    } else {
      assert Key(longer[|m|].name.text) == k;
    }
  }

  lemma StillFree(slots: seq<Slot>, n: nat, slot: Slot)
    requires n < |slots| && FreeSlots(slots, n)
    ensures FreeSlots(slots[n := slot], n + 1)
  {
  }

  lemma OneMoreKey(m: map<string, Symbol>, key: string, sym: Symbol)
    requires key !in m
    ensures |m[key := sym]| == |m| + 1
  {
    assert m[key := sym].Keys == m.Keys + {key};
    assert |m[key := sym].Keys| == |m[key := sym]|;
  }

  lemma AddSlot(slots: seq<Slot>, m: map<string, Symbol>, name: string, sym: Symbol)
    requires Represents(slots, m) && |m| < |slots| && Key(name) !in m && sym != 0
    ensures |m[Key(name) := sym]| == |m| + 1
    ensures Represents(slots[|m| := Slot(sym, Named(name))], m[Key(name) := sym])
  {
    hide Key, UsedSlots, DistinctSlots, FreeSlots, HoldsKey;
    var longer := slots[|m| := Slot(sym, Named(name))];
    OneMoreKey(m, Key(name), sym);
    StillUsed(slots, m, name, sym);
    StillFree(slots, |m|, Slot(sym, Named(name)));
    StillDistinct(slots, m, name, sym);
    var bigger := m[Key(name) := sym];
    forall k | k in bigger ensures HoldsKey(longer, |m| + 1, bigger, k) {
      StillHeld(slots, m, name, sym, k);
    }
  }

  class TaskNameTable {
    const names: array<Slot>
    ghost var calls: seq<Call>

    ghost predicate Valid()
      reads this, names
    {
      names.Length == MAX_TASKS && Represents(names[..], Ideal(calls))
    }

    constructor ()
      ensures Valid() && calls == [] && fresh(names)
    {
      names := new Slot[MAX_TASKS](i => Slot(0, NoName));
      calls := [];
    }

    /**
     Looks a name up and registers it if it is new. It fails (the source's final
     assertion) exactly when the key is new and either no slot is free or the recorder
     hands out no symbol; otherwise it returns what the ideal map holds for the key.
     */
    method TaskNameSym(name: string, answer: Symbol) returns (ok: bool, sym: Symbol)
      requires Valid()
      modifies this, names
      ensures ok <==> Key(name) in old(Ideal(calls)) || (|old(Ideal(calls))| < 12 && answer != 0)
      ensures calls == old(calls) + [Call(name, answer)]
      ensures ok ==> Valid() && Key(name) in Ideal(calls) && sym == Ideal(calls)[Key(name)] && sym != 0
      ensures ok && Key(name) in old(Ideal(calls)) ==> names[..] == old(names[..])
      ensures ok && Key(name) !in old(Ideal(calls)) ==>
        names[..] == old(names[..])[|old(Ideal(calls))| := Slot(answer, Named(name))]
    {
      hide Key, SameName, Ideal;
      ghost var m, key, slots := Ideal(calls), Key(name), names[..];
      IdealStep(calls, Call(name, answer));
      calls := calls + [Call(name, answer)];
      sym := 0;
      var i := 0;
      while i < MAX_TASKS
        invariant 0 <= i <= MAX_TASKS && sym == 0
        invariant names[..] == slots
        invariant calls == old(calls) + [Call(name, answer)]
        invariant forall j :: 0 <= j < i && j < |m| ==> Key(slots[j].name.text) != key
      {
        var slot := names[i];
        assert slot == slots[i];
        if slot.sym != 0 {
          SameNameIsSameKey(slot.name.text, name);
          if SameName(slot.name.text, name) {
            sym := slot.sym;
            break;
          }
        }
        i := i + 1;
      }
      assert sym == 0 <==> key !in m;
      if sym == 0 {
        i := 0;
        while i < MAX_TASKS
          invariant 0 <= i <= MAX_TASKS && i <= |m| && sym == 0
          invariant names[..] == slots
          invariant calls == old(calls) + [Call(name, answer)]
        {
          var slot := names[i];
          assert slot == slots[i];
          if slot.sym == 0 {
            assert slot.name == NoName;  // the source's assertion on the free slot
            sym := answer;
            names[i] := Slot(sym, Named(name));
            assert names[..] == slots[i := Slot(sym, Named(name))];
            if answer != 0 {
              AddSlot(slots, m, name, answer);
            }
            break;
          }
          i := i + 1;
        }
      }
      ok := sym != 0;
    }
  }

  lemma KeysOfMore(calls: seq<Call>, more: seq<Call>)
    ensures KeySet(calls + more) == KeySet(calls) + KeySet(more)
    ensures |KeySet(calls)| <= |KeySet(calls + more)|
  {
    hide Key;
    var all := calls + more;
    assert forall i :: 0 <= i < |calls| ==> all[i] == calls[i];
    assert forall i :: 0 <= i < |more| ==> all[|calls| + i] == more[i];
    assert KeySet(all) == KeySet(calls) + KeySet(more);
    assert KeySet(all) == KeySet(calls) + (KeySet(all) - KeySet(calls));
    assert |KeySet(all)| == |KeySet(calls)| + |KeySet(all) - KeySet(calls)|;
  }

  lemma OneMoreCall(calls: seq<Call>, call: Call)
    ensures Ideal(calls).Keys == KeySet(calls) && |Ideal(calls)| == |KeySet(calls)|
    ensures |KeySet(calls + [call])| == |KeySet(calls)| + if Key(call.name) in Ideal(calls) then 0 else 1
  {
    hide Key;
    IdealIsFirstAnswer(calls);
    KeysOfMore(calls, [call]);
    assert KeySet([call]) == {Key(call.name)} by {
      assert [call][0] == call;
    }
    assert |Ideal(calls)| == |Ideal(calls).Keys|;
    if Key(call.name) in Ideal(calls) {
      assert KeySet(calls + [call]) == KeySet(calls);
    }
  }

  /**
   A list of look-ups and nothing else, that is the table's own limit: with a recorder
   that hands out symbols they fail exactly when more than twelve different keys have
   been looked up since the start. A round of the statistics task checks more, below.
   */
  method LogAll(table: TaskNameTable, tasks: seq<Call>) returns (ok: bool, syms: seq<Symbol>)
    requires table.Valid()
    requires forall i :: 0 <= i < |tasks| ==> tasks[i].answer != 0
    modifies table, table.names
    ensures ok <==> |KeySet(old(table.calls) + tasks)| <= 12
    ensures ok ==>
      && table.Valid() && table.calls == old(table.calls) + tasks && |syms| == |tasks|
      && forall k :: 0 <= k < |tasks| ==>
           Key(tasks[k].name) in Ideal(table.calls) && syms[k] == Ideal(table.calls)[Key(tasks[k].name)]
  {
    hide Key, Ideal, KeySet, Represents;
    syms := [];
    ghost var start := table.calls;
    OneMoreCall(start, Call("", 0));
    RepresentsBound(table.names[..], Ideal(start));
    assert start + tasks[..0] == start;
    for k := 0 to |tasks|
      invariant table.Valid() && table.calls == start + tasks[..k] && |syms| == k
      invariant |KeySet(table.calls)| <= MAX_TASKS
      invariant forall j :: 0 <= j < k ==>
        Key(tasks[j].name) in Ideal(table.calls) && syms[j] == Ideal(table.calls)[Key(tasks[j].name)]
    {
      var call := tasks[k];
      ghost var soFar := table.calls;
      assert start + tasks[..k + 1] == soFar + [call];
      OneMoreCall(soFar, call);
      assert start + tasks == (soFar + [call]) + tasks[k + 1..];
      KeysOfMore(soFar + [call], tasks[k + 1..]);
      var done, sym := table.TaskNameSym(call.name, call.answer);
      if !done {
        return false, syms;
      }
      syms := syms + [sym];
      forall j | 0 <= j < k
        ensures Key(tasks[j].name) in Ideal(table.calls) && syms[j] == Ideal(table.calls)[Key(tasks[j].name)]
      {
        SymbolsAreKept(soFar, [call], Key(tasks[j].name));
      }
    }
    assert start + tasks[..|tasks|] == start + tasks;
    ok := true;
  }

  // ----- the statistics task -----

  datatype Task = Task(name: string, stackSize: nat)

  /** The tasks that have a stack size, in words. */
  const TASKS: seq<Task> := [
    Task("Stats", 512), Task("Sensor", 256), Task("Comms", 256), Task("IDLE", 256), Task("Tmr Svc", 512),
    Task("TzCtrl", 1024), Task("IP-task", 1280), Task("EMAC", 512), Task("VoltageMonitor", 256)]

  function NamesOf(tasks: seq<Task>): set<string> {
    set i | 0 <= i < |tasks| :: tasks[i].name
  }

  /** Has a task of this name a stack size? */
  predicate Listed(name: string) {
    name in NamesOf(TASKS)
  }

  lemma {:induction false} NamesAreFew(tasks: seq<Task>)
    ensures |NamesOf(tasks)| <= |tasks|
  {
    if tasks != [] {
      var earlier, last := tasks[..|tasks| - 1], tasks[|tasks| - 1];
      NamesAreFew(earlier);
      assert NamesOf(tasks) == NamesOf(earlier) + {last.name};
    }
  }

  lemma ListedAre(name: string)
    ensures Listed(name) <==>
      || name == TASKS[0].name || name == TASKS[1].name || name == TASKS[2].name
      || name == TASKS[3].name || name == TASKS[4].name || name == TASKS[5].name
      || name == TASKS[6].name || name == TASKS[7].name || name == TASKS[8].name
  {
  }

  /** A name is one of the table's, written out, exactly if that is its key. */
  lemma SameAs(name: string, known: string)
    requires |known| <= MAX_TASK_NAME_LEN && NUL !in known
    ensures SameName(name, known) <==> Key(name) == known
  {
    SameNameIsSameKey(name, known);
    KeyIsPrefix(known);
  }

  /** The stack size of a task; it fails (the source's final assertion) exactly for a name not listed. */
  method TaskStackSize(name: string) returns (ok: bool, stackSize: nat)
    ensures ok <==> Listed(Key(name))
    ensures ok ==> Task(Key(name), stackSize) in TASKS
  {
    hide Key, SameName, Listed;
    ListedAre(Key(name));
    SameAs(name, "Stats");
    SameAs(name, "Sensor");
    SameAs(name, "Comms");
    SameAs(name, "IDLE");
    SameAs(name, "Tmr Svc");
    SameAs(name, "TzCtrl");
    SameAs(name, "IP-task");
    SameAs(name, "EMAC");
    SameAs(name, "VoltageMonitor");
    stackSize := 0;
    if SameName(name, "Stats") {
      stackSize := 2 * 256;
      assert TASKS[0] == Task(Key(name), stackSize);
    } else if SameName(name, "Sensor") {
      stackSize := 256;
      assert TASKS[1] == Task(Key(name), stackSize);
    } else if SameName(name, "Comms") {
      stackSize := 256;
      assert TASKS[2] == Task(Key(name), stackSize);
    } else if SameName(name, "IDLE") {
      stackSize := 256;
      assert TASKS[3] == Task(Key(name), stackSize);
    } else if SameName(name, "Tmr Svc") {
      stackSize := 256 * 2;
      assert TASKS[4] == Task(Key(name), stackSize);
    } else if SameName(name, "TzCtrl") {
      stackSize := 1024;
      assert TASKS[5] == Task(Key(name), stackSize);
    } else if SameName(name, "IP-task") {
      stackSize := 256 * 5;
      assert TASKS[6] == Task(Key(name), stackSize);
    } else if SameName(name, "EMAC") {
      stackSize := 256 * 2;
      assert TASKS[7] == Task(Key(name), stackSize);
    } else if SameName(name, "VoltageMonitor") {
      stackSize := 256;
      assert TASKS[8] == Task(Key(name), stackSize);
    }
    ok := stackSize != 0;
  }

  class StatsTask {
    const table: TaskNameTable

    /** Only listed names were ever looked up, so the table never comes near its limit. */
    ghost predicate Valid()
      reads this, table, table.names
    {
      table.Valid() && KeySet(table.calls) <= NamesOf(TASKS)
    }

    constructor ()
      ensures Valid() && table.calls == [] && fresh(table) && fresh(table.names)
    {
      table := new TaskNameTable();
    }

    /**
     One round: the kernel's number of tasks is checked, and then, if any run time has
     been counted, each task is logged with its symbol and its stack size. With a recorder
     that hands out symbols the round fails exactly if there are more than twelve tasks
     or one to be logged has a name not listed. The table itself never makes it fail.
     */
    method Round(numberOfTasks: nat, tasks: seq<Call>, totalRuntime: nat) returns (ok: bool, log: seq<(Symbol, nat)>)
      requires Valid()
      requires |tasks| <= numberOfTasks
      requires forall i :: 0 <= i < |tasks| ==> tasks[i].answer != 0
      modifies table, table.names
      ensures ok <==>
        && numberOfTasks <= 12
        && (totalRuntime / 100 == 0 || forall k :: 0 <= k < |tasks| ==> Listed(Key(tasks[k].name)))
      ensures ok ==> Valid() && |Ideal(table.calls)| <= 9
      ensures ok ==> table.calls == old(table.calls) + if totalRuntime / 100 == 0 then [] else tasks
      ensures ok && totalRuntime / 100 == 0 ==> log == []
      ensures ok && totalRuntime / 100 != 0 ==>
        && |log| == |tasks|
        && forall k :: 0 <= k < |tasks| ==> Logged(tasks[k], log[k], Ideal(table.calls))
    {
      hide Key, Ideal, KeySet, Represents, Listed, NamesOf;
      log := [];
      ghost var start := table.calls;
      FewKeys(start);
      if numberOfTasks > MAX_TASKS {
        return false, log;
      }
      if totalRuntime / 100 != 0 {
        assert start + tasks[..0] == start;
        for k := 0 to |tasks|
          invariant Valid() && table.calls == start + tasks[..k] && |log| == k
          invariant forall j :: 0 <= j < k ==> Logged(tasks[j], log[j], Ideal(table.calls)) && Listed(Key(tasks[j].name))
        {
          var call := tasks[k];
          ghost var soFar := table.calls;
          assert start + tasks[..k + 1] == soFar + [call];
          FewKeys(soFar);
          var found, sym := table.TaskNameSym(call.name, call.answer);
          var listed, stackSize := TaskStackSize(call.name);
          IsListed(Key(call.name));
          if !found || !listed {
            return false, log;
          }
          KeyJoins(soFar, call);
          log := log + [(sym, stackSize)];
          forall j | 0 <= j < k ensures Logged(tasks[j], log[j], Ideal(table.calls)) {
            SymbolsAreKept(soFar, [call], Key(tasks[j].name));
          }
        }
        assert tasks[..|tasks|] == tasks;
      } else {
        assert start + [] == start;
      }
      FewKeys(table.calls);
      ok := true;
    }
  }

  /** A task is logged with its symbol in the table and its stack size. */
  ghost predicate Logged(task: Call, entry: (Symbol, nat), m: map<string, Symbol>) {
    Key(task.name) in m && entry.0 == m[Key(task.name)] && Task(Key(task.name), entry.1) in TASKS
  }

  lemma IsListed(name: string)
    ensures Listed(name) <==> name in NamesOf(TASKS)
  {
  }

  lemma KeyJoins(calls: seq<Call>, call: Call)
    ensures KeySet(calls + [call]) == KeySet(calls) + {Key(call.name)}
  {
    hide Key;
    KeysOfMore(calls, [call]);
    assert KeySet([call]) == {Key(call.name)} by {
      assert [call][0] == call;
    }
  }

  lemma FewKeys(calls: seq<Call>)
    requires KeySet(calls) <= NamesOf(TASKS)
    ensures |Ideal(calls)| <= 9
  {
    hide Key, Ideal, KeySet, NamesOf;
    NamesAreFew(TASKS);
    OneMoreCall(calls, Call("", 0));
    Fewer(KeySet(calls), NamesOf(TASKS));
  }

  lemma Fewer(a: set<string>, b: set<string>)
    requires a <= b
    ensures |a| <= |b|
  {
    assert b == a + (b - a);
  }
}
