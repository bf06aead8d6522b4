/** The flag entity: a named boolean toggle with a status and an ordered list of
    the ids of the flags it depends on. */
module FlagEntity {
  import opened Results

  /** The two values of a flag's status column. */
  datatype FlagStatus = Enabled | Disabled

  /** The text stored in the status column for each status. */
  function StatusText(s: FlagStatus): string {
    match s
    case Enabled => "enabled"
    case Disabled => "disabled"
  }

  /** Reads a status column value back; any other text is not a status. */
  function ParseStatus(text: string): (r: Option<FlagStatus>)
    ensures r.Some? ==> StatusText(r.value) == text
  {
    if text == "enabled" then Some(Enabled)
    else if text == "disabled" then Some(Disabled)
    else None
  }

  /** Statuses survive being stored as text and read back. */
  lemma StatusRoundTrip(s: FlagStatus)
    ensures ParseStatus(StatusText(s)) == Some(s)
  {
  }

  /** A flag as the repository returns it; timestamps are not modelled. */
  datatype Flag = Flag(id: int, name: string, status: FlagStatus, dependencies: seq<int>)

  predicate IsEnabled(f: Flag)
    ensures IsEnabled(f) <==> StatusText(f.status) == "enabled"
  {
    f.status == Enabled
  }

  predicate IsDisabled(f: Flag)
    ensures IsDisabled(f) <==> StatusText(f.status) == "disabled"
  {
    f.status == Disabled
  }

  /** A flag is never both enabled and disabled, and with only two stored
      values it is always one of them. */
  lemma EnabledXorDisabled(f: Flag)
    ensures !(IsEnabled(f) && IsDisabled(f))
    ensures IsEnabled(f) || IsDisabled(f)
  {
  }

  /** Enabling changes the status and nothing else. */
  function Enable(f: Flag): (r: Flag)
    ensures IsEnabled(r)
    ensures r.id == f.id && r.name == f.name && r.dependencies == f.dependencies
  {
    f.(status := Enabled)
  }

  /** Disabling changes the status and nothing else. */
  function Disable(f: Flag): (r: Flag)
    ensures IsDisabled(r)
    ensures r.id == f.id && r.name == f.name && r.dependencies == f.dependencies
  {
    f.(status := Disabled)
  }

  predicate HasDependencies(f: Flag)
    ensures HasDependencies(f) <==> exists d :: d in f.dependencies
  {
    if |f.dependencies| > 0 then
      var first := f.dependencies[0];
      assert first in f.dependencies;
      true
    else
      false
  }

  /** The linear scan of the dependency list. */
  predicate Contains(xs: seq<int>, x: int)
    ensures Contains(xs, x) <==> x in xs
  {
    |xs| > 0 && (xs[0] == x || Contains(xs[1..], x))
  }

  predicate NoDuplicates(xs: seq<int>) {
    forall i, j :: 0 <= i < j < |xs| ==> xs[i] != xs[j]
  }

  /** Adds a dependency unless it is already listed; a new id goes at the end. */
  function AddDependency(f: Flag, dependencyId: int): (r: Flag)
    ensures r.id == f.id && r.name == f.name && r.status == f.status
    ensures dependencyId in r.dependencies
    ensures forall d :: d in r.dependencies <==> d in f.dependencies || d == dependencyId
    ensures |f.dependencies| <= |r.dependencies| <= |f.dependencies| + 1
    ensures r.dependencies[..|f.dependencies|] == f.dependencies
    ensures NoDuplicates(f.dependencies) ==> NoDuplicates(r.dependencies)
  {
    if Contains(f.dependencies, dependencyId) then f
    else f.(dependencies := f.dependencies + [dependencyId])
  }

  /** Adding a dependency that is already listed changes nothing, so adding
      twice is adding once. */
  lemma AddDependencyIdempotent(f: Flag, dependencyId: int)
    ensures AddDependency(AddDependency(f, dependencyId), dependencyId) == AddDependency(f, dependencyId)
  {
  }

  /** The position of the first occurrence of x. */
  function FirstIndex(xs: seq<int>, x: int): (i: nat)
    requires x in xs
    ensures i < |xs| && xs[i] == x
    ensures x !in xs[..i]
  {
    if xs[0] == x then 0 else 1 + FirstIndex(xs[1..], x)
  }

  /** The list without its first occurrence of x; unchanged when x is absent. */
  function RemoveFirst(xs: seq<int>, x: int): (r: seq<int>)
    ensures x !in xs ==> r == xs
    ensures x in xs ==> r == xs[..FirstIndex(xs, x)] + xs[FirstIndex(xs, x) + 1..]
  {
    if x !in xs then xs
    else if xs[0] == x then xs[1..]
    else
      var tail := xs[1..];
      assert x in tail;
      var i := FirstIndex(tail, x);
      assert FirstIndex(xs, x) == i + 1;
      assert xs[..i + 1] == [xs[0]] + tail[..i];
      assert xs[i + 2..] == tail[i + 1..];
      [xs[0]] + RemoveFirst(tail, x)
  }

  /** Removes the first occurrence of a dependency, keeping the order of the rest. */
  function RemoveDependency(f: Flag, dependencyId: int): (r: Flag)
    ensures r.id == f.id && r.name == f.name && r.status == f.status
    ensures dependencyId !in f.dependencies ==> r == f
    ensures dependencyId in f.dependencies ==>
      var i := FirstIndex(f.dependencies, dependencyId);
      r.dependencies == f.dependencies[..i] + f.dependencies[i + 1..]
    ensures |r.dependencies| == if dependencyId in f.dependencies then |f.dependencies| - 1 else |f.dependencies|
  {
    f.(dependencies := RemoveFirst(f.dependencies, dependencyId))
  }

  /** Adding a dependency that was not listed and then removing it restores the flag. */
  lemma {:induction false} RemoveUndoesAdd(f: Flag, dependencyId: int)
    requires dependencyId !in f.dependencies
    ensures RemoveDependency(AddDependency(f, dependencyId), dependencyId) == f
  {
    var xs := f.dependencies + [dependencyId];
    assert AddDependency(f, dependencyId).dependencies == xs;
    var i := FirstIndex(xs, dependencyId);
    assert i == |f.dependencies|;
    assert xs[..i] == f.dependencies;
  }
}
