/**
 * The per-group state files that transition scripts use to remember a group's
 * last state across keepalived reloads. The state directory is a map from file
 * name to file contents; creating the directory and the file system itself are
 * not modelled.
 */
module StatePersistence {
  import opened Wrappers
  import opened Text

  /** The contents of the state directory, by file name. */
  type StateDir = map<string, string>

  /** `"{0}.state".format(group)`: the group's name followed by the `.state` suffix. */
  function StateFileName(group: string): (r: string)
    ensures |r| == |group| + 6 && r[..|group|] == group && r[|group|..] == ".state"
  {
    group + ".state"
  }

  /** Different groups use different files. */
  lemma StateFileNameInjective(g1: string, g2: string)
    ensures StateFileName(g1) == StateFileName(g2) ==> g1 == g2
  {
    if StateFileName(g1) == StateFileName(g2) {
      assert |g1| == |g2|;
      assert g1 == StateFileName(g1)[..|g1|];
    }
  }

  /**
   * What `open(file, 'r').read()` returns for a file holding `raw`: Python's
   * universal-newlines text mode turns each `\r\n`, and each `\r` on its own,
   * into `\n`.
   */
  function ReadText(raw: string): (r: string)
    ensures '\r' !in r && |r| <= |raw|
    ensures '\r' !in raw ==> r == raw
    decreases |raw|
  {
    if raw == [] then []
    else if raw[0] == '\r' then
      if |raw| > 1 && raw[1] == '\n' then "\n" + ReadText(raw[2..]) else "\n" + ReadText(raw[1..])
    else
      var r := ReadText(raw[1..]);
      assert '\r' !in raw ==> raw == [raw[0]] + raw[1..];
      [raw[0]] + r
  }

  /** Text up to the first carriage return reads unchanged, and that `\r\n` reads as one `\n`. */
  lemma {:induction false} ReadTextCrLf(a: string, b: string)
    requires '\r' !in a
    ensures ReadText(a + "\r\n" + b) == a + "\n" + ReadText(b)
    decreases |a|
  {
    var s := a + "\r\n" + b;
    if a == [] {
      assert s[0] == '\r' && s[1] == '\n' && s[2..] == b;
    } else {
      assert s[0] == a[0] && s[1..] == a[1..] + "\r\n" + b;
      ReadTextCrLf(a[1..], b);
      JoinAfterFirst(a, "\n", ReadText(b));
    }
  }

  /** Text up to the first carriage return reads unchanged, and that `\r`, with no `\n` after it, reads as `\n`. */
  lemma {:induction false} ReadTextCr(a: string, b: string)
    requires '\r' !in a
    requires b == [] || b[0] != '\n'
    ensures ReadText(a + "\r" + b) == a + "\n" + ReadText(b)
    decreases |a|
  {
    var s := a + "\r" + b;
    if a == [] {
      assert s[0] == '\r' && s[1..] == b;
      assert |s| > 1 ==> s[1] == b[0];
    } else {
      assert s[0] == a[0] && s[1..] == a[1..] + "\r" + b;
      ReadTextCr(a[1..], b);
      JoinAfterFirst(a, "\n", ReadText(b));
    }
  }

  lemma JoinAfterFirst(a: string, m: string, b: string)
    requires a != []
    ensures [a[0]] + (a[1..] + m + b) == a + m + b
  {
  }

  /** `get_old_state(group)`: the stripped text of the group's file, or None when there is none. */
  function GetOldState(dir: StateDir, group: string): (r: Option<string>)
    ensures r.None? <==> StateFileName(group) !in dir
    ensures r.Some? ==> IsStripped(r.value) && '\r' !in r.value && |r.value| <= |dir[StateFileName(group)]|
  {
    var file := StateFileName(group);
    if file in dir then
      var text := ReadText(dir[file]);
      StripKeepsOut(text, '\r');
      Some(Strip(text))
    else None
  }

  /** `save_state(group, state)`: the group's file now holds `state` exactly, and no other file changes. */
  function SaveState(dir: StateDir, group: string, state: string): (r: StateDir)
    ensures r.Keys == dir.Keys + {StateFileName(group)}
    ensures r[StateFileName(group)] == state
    ensures forall file | file in dir && file != StateFileName(group) :: r[file] == dir[file]
  {
    dir[StateFileName(group) := state]
  }

  /** Reading back a saved state gives its text-mode reading without surrounding whitespace. */
  lemma SaveThenGet(dir: StateDir, group: string, state: string)
    ensures GetOldState(SaveState(dir, group, state), group) == Some(Strip(ReadText(state)))
  {
  }

  /** A state without carriage returns or surrounding whitespace, such as `MASTER`, reads back exactly as saved. */
  lemma SaveStrippedThenGet(dir: StateDir, group: string, state: string)
    requires IsStripped(state) && '\r' !in state
    ensures GetOldState(SaveState(dir, group, state), group) == Some(state)
  {
    var empty: string := [];
    assert empty + state + empty == state;
    StripPadded(empty, state, empty);
  }

  /** A carriage return inside a saved state reads back as a line feed: `A\rB` is read as `A\nB`. */
  lemma CarriageReturnReadsAsNewline(dir: StateDir, group: string)
    ensures GetOldState(SaveState(dir, group, "A\rB"), group) == Some("A\nB")
  {
    var read := ReadText("A\rB");
    assert read == "A\nB";
    var empty: string := [];
    assert empty + read + empty == read;
    StripPadded(empty, read, empty);
  }

  /** Saving one group's state leaves what every other group reads unchanged. */
  lemma SaveLeavesOthers(dir: StateDir, group: string, other: string, state: string)
    requires other != group
    ensures GetOldState(SaveState(dir, group, state), other) == GetOldState(dir, other)
  {
    StateFileNameInjective(group, other);
  }

  /** Saving what was just read changes nothing that can be read, for this group or any other. */
  lemma SaveReadStateIsStable(dir: StateDir, group: string)
    requires GetOldState(dir, group).Some?
    ensures forall other :: GetOldState(SaveState(dir, group, GetOldState(dir, group).value), other) == GetOldState(dir, other)
  {
    var v := GetOldState(dir, group).value;
    forall other ensures GetOldState(SaveState(dir, group, v), other) == GetOldState(dir, other) {
      if other == group {
        SaveStrippedThenGet(dir, group, v);
      } else {
        SaveLeavesOthers(dir, group, other, v);
      }
    }
  }

  /** One call `save_state(group, state)`. */
  datatype Save = Save(group: string, state: string)

  /** The directory after a series of saves, starting from `dir`. */
  function Replay(dir: StateDir, saves: seq<Save>): StateDir
  {
    if saves == [] then dir
    else
      var last := saves[|saves| - 1];
      SaveState(Replay(dir, saves[..|saves| - 1]), last.group, last.state)
  }

  /** The state most recently saved for `group`, if any. */
  function LastSaved(saves: seq<Save>, group: string): Option<string>
  {
    if saves == [] then None
    else if saves[|saves| - 1].group == group then Some(saves[|saves| - 1].state)
    else LastSaved(saves[..|saves| - 1], group)
  }

  /** `LastSaved` finds a save of the group exactly when there is one, and what it finds was saved. */
  lemma {:induction false} LastSavedFindsSave(saves: seq<Save>, group: string)
    ensures LastSaved(saves, group).None? <==> forall i | 0 <= i < |saves| :: saves[i].group != group
    ensures LastSaved(saves, group).Some? ==> exists i | 0 <= i < |saves| :: saves[i] == Save(group, LastSaved(saves, group).value)
  {
    if saves != [] && saves[|saves| - 1].group != group {
      var init := saves[..|saves| - 1];
      LastSavedFindsSave(init, group);
      var r := LastSaved(init, group);
      if r.Some? {
        var i :| 0 <= i < |init| && init[i] == Save(group, r.value);
        assert saves[i] == Save(group, r.value);
      } else {
        forall i | 0 <= i < |saves| ensures saves[i].group != group {
          if i < |init| {
            assert init[i] == saves[i];
          }
        }
      }
    }
  }

  /**
   * Starting from an empty directory, a group that was never saved reads None,
   * and otherwise reads the text-mode reading, stripped, of its latest save.
   */
  lemma {:induction false} ReplayThenGet(saves: seq<Save>, group: string)
    ensures GetOldState(Replay(map[], saves), group)
      == match LastSaved(saves, group)
         case None => None
         case Some(s) => Some(Strip(ReadText(s)))
  {
    if saves != [] {
      var init := saves[..|saves| - 1];
      var last := saves[|saves| - 1];
      ReplayThenGet(init, group);
      if last.group != group {
        SaveLeavesOthers(Replay(map[], init), last.group, group, last.state);
      }
    }
  }
}
