/// `build_action_map` (clipai/actions.py) and the action record that it and
/// the hotkey handler read.
module Actions {
  import opened PyStr

  /** An action record from the configuration: the keys the core reads, each
      `None` when the YAML mapping lacks it. */
  datatype Action = Action(
    id: Option<string>,
    name: Option<string>,
    prompt: Option<string>,
    model: Option<string>,
    maxTokens: Option<int>,
    autoPaste: Option<bool>)

  /** Position `i` is the last one in `actions` whose id is `k`. */
  predicate IsLastWithId(actions: seq<Action>, k: string, i: int) {
    && 0 <= i < |actions|
    && actions[i].id == Some(k)
    && forall j :: i < j < |actions| ==> actions[j].id != Some(k)
  }

  /** Some record in `actions` has the id `k`. */
  predicate HasId(actions: seq<Action>, k: string) {
    exists i :: 0 <= i < |actions| && actions[i].id == Some(k)
  }

  /** `build_action_map`: a loop that stores each record under its id, skipping
      records whose id is missing or empty, so that the last duplicate wins. */
  method BuildActionMap(actions: Option<seq<Action>>) returns (out: map<string, Action>)
    ensures actions.None? || actions.value == [] ==> out == map[]
    ensures forall k :: k in out <==> k != "" && HasId(actions.GetOr([]), k)
    ensures forall k :: k in out ==> out[k].id == Some(k)
    ensures forall k :: k in out ==>
              exists i :: IsLastWithId(actions.GetOr([]), k, i) && out[k] == actions.GetOr([])[i]
  {
    var items := if actions.Some? then actions.value else [];
    out := map[];
    for i := 0 to |items|
      invariant forall k :: k in out <==> k != "" && HasId(items[..i], k)
      invariant forall k :: k in out ==> exists j :: IsLastWithId(items[..i], k, j) && out[k] == items[j]
    {
      var a := items[i];
      assert items[..i + 1] == items[..i] + [a];
      ghost var old_out := out;
      if Truthy(a.id) {
        out := out[a.id.value := a];
      }
      forall k | true
        ensures k in out <==> k != "" && HasId(items[..i + 1], k)
        ensures k in out ==> exists j :: IsLastWithId(items[..i + 1], k, j) && out[k] == items[j]
      {
        AppendRecord(items[..i], a, k);
        if k in old_out && a.id != Some(k) {
          var j :| IsLastWithId(items[..i], k, j) && old_out[k] == items[j];
          assert IsLastWithId(items[..i + 1], k, j);
        }
        if a.id == Some(k) && k in out {
          assert IsLastWithId(items[..i + 1], k, i);
        }
      }
    }
    assert items[..|items|] == items;
  }

  /** How appending one record changes which ids occur and where each id
      occurs last. */
  lemma AppendRecord(s: seq<Action>, a: Action, k: string)
    ensures HasId(s + [a], k) <==> HasId(s, k) || a.id == Some(k)
    ensures a.id == Some(k) ==> IsLastWithId(s + [a], k, |s|)
    ensures a.id != Some(k) ==> forall j :: IsLastWithId(s, k, j) ==> IsLastWithId(s + [a], k, j)
  {
    var t := s + [a];
    if HasId(t, k) && a.id != Some(k) {
      var i :| 0 <= i < |t| && t[i].id == Some(k);
      assert s[i] == t[i];
    }
    if HasId(s, k) {
      var i :| 0 <= i < |s| && s[i].id == Some(k);
      assert t[i] == s[i];
    }
    if a.id != Some(k) {
      forall j | IsLastWithId(s, k, j) ensures IsLastWithId(t, k, j) {
        assert t[j] == s[j];
        forall m | j < m < |t| ensures t[m].id != Some(k) {
          if m < |s| { assert t[m] == s[m]; }
        }
      }
    } else {
      assert t[|s|] == a;
    }
  }
}
