/** The search of `Wheelhouse` with one more test, at the place where the program makes none. */
module StrictSearch {
  import opened Wrappers
  import opened Wheelhouse

  /** `Add`, but the wheel picked for a name that is being visited must satisfy the requirement. */
  function StrictAdd(house: House, raw: string, st: State, picked: map<string, Wheel>): (result: Option<State>)
    requires picked.Keys == st.visiting
    ensures result.Some? ==> result.value.visiting == st.visiting
    decreases |house.Keys - st.visiting|, 0
  {
    match ParseRequirement(raw)
    case None => None
    case Some(r) =>
      if r.name in st.chosen then
        if Satisfied(r, st.chosen[r.name]) then Some(st) else None
      else if r.name in st.visiting then
        if Satisfied(r, picked[r.name]) then Some(st) else None
      else if r.name !in house then None
      else
        match FirstSatisfying(r, house[r.name])
        case None => None
        case Some(w) =>
          if w.metadata.None? || !w.metadata.value.pure then None
          else
            Wheelhouse.Visit(house, r.name, st);
            var visiting := st.(visiting := st.visiting + {r.name});
            match StrictAddAll(house, w.metadata.value.dependencies, visiting, picked[r.name := w])
            case None => None
            case Some(after) => Some(Close(after, r.name, w, raw))
  }

  function StrictAddAll(house: House, raws: seq<string>, st: State, picked: map<string, Wheel>): (result: Option<State>)
    requires picked.Keys == st.visiting
    ensures result.Some? ==> result.value.visiting == st.visiting
    decreases |house.Keys - st.visiting|, |raws|
  {
    if raws == [] then Some(st)
    else
      match StrictAdd(house, raws[0], st, picked)
      case None => None
      case Some(next) => StrictAddAll(house, raws[1..], next, picked)
  }

  function StrictResolve(house: House, roots: seq<string>): Option<State> {
    StrictAddAll(house, roots, INITIAL, map[])
  }
}
