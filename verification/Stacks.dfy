/** Values under keys as one leaf keeps equal keys: for every key a stack, the newest value first. */
module Stacks {
  import opened Options
  import opened ValueTree

  type Stacks<V> = map<string, seq<V>>

  function Push<V>(inserts: Inserts, stacks: Stacks<V>, key: string, value: V): Stacks<V> {
    stacks[key := [value] + if inserts.Stacking? && key in stacks then stacks[key] else []]
  }

  function Pop<V>(stacks: Stacks<V>, key: string): Stacks<V> {
    if key !in stacks then stacks else if |stacks[key]| <= 1 then stacks - {key} else stacks[key := stacks[key][1..]]
  }

  function Top<V>(stacks: Stacks<V>, key: string): Option<V> {
    if key in stacks && stacks[key] != [] then Some(stacks[key][0]) else None
  }
}
