/**
 * `copy_memory_starters`: copy every entry of the memory-starter directory
 * into the target memory directory, skipping each name the target already
 * has. Files and whole subdirectories are copied alike; nothing that is
 * already there is overwritten.
 */
module MemoryStarters {
  import opened Wrappers
  import opened FileTree

  /** The target after the copy: its own entries stay, and every source
      entry whose name it lacks is added. */
  function Merged(target: Tree, source: Tree): Tree {
    map n | n in target.Keys + source.Keys :: if n in target then target[n] else source[n]
  }

  /** Nothing already in the target is overwritten, every source name ends
      up present, and each added entry is the source's entry. */
  lemma MergedSpec(target: Tree, source: Tree)
    ensures Merged(target, source).Keys == target.Keys + source.Keys
    ensures forall n :: n in target ==> Merged(target, source)[n] == target[n]
    ensures forall n :: n in source && n !in target ==> Merged(target, source)[n] == source[n]
  {
  }

  /** Copying the same starters a second time changes nothing. */
  lemma MergedIdempotent(target: Tree, source: Tree)
    ensures Merged(Merged(target, source), source) == Merged(target, source)
  {
    var once := Merged(target, source);
    assert Merged(once, source).Keys == once.Keys;
  }

  /** Well-formed directories merge into a well-formed directory. */
  lemma MergedValid(target: Tree, source: Tree)
    requires ValidNode(Dir(target)) && ValidNode(Dir(source))
    ensures ValidNode(Dir(Merged(target, source)))
  {
    var m := Merged(target, source);
    forall n | n in m
      ensures ValidName(n) && ValidNode(m[n])
    {
      if n in target {
        assert ValidName(n) && ValidNode(target[n]);
      } else {
        assert ValidName(n) && ValidNode(source[n]);
      }
    }
  }

  /** What `copy_memory_starters(source, target)` leaves at the target: with
      no source nothing happens (the target is not even created); otherwise
      the target, created when absent, receives the missing entries. */
  function MemoryAfterCopy(source: Option<Tree>, target: Option<Tree>): (result: Option<Tree>)
    ensures source.None? ==> result == target
    ensures source.Some? ==> result.Some? && source.value.Keys <= result.value.Keys
    ensures source.Some? && target.Some? ==>
      target.value.Keys <= result.value.Keys &&
      forall n :: n in target.value ==> result.value[n] == target.value[n]
  {
    if source.None? then target
    else
      MergedSpec(target.GetOr(map[]), source.value);
      Some(Merged(target.GetOr(map[]), source.value))
  }

  /** The copy of lines 92-113: every source entry is visited once, in the
      order the directory lists them, and copied only when the target has
      no entry of that name. */
  method CopyMemoryStarters(source: Option<Tree>, target: Option<Tree>) returns (result: Option<Tree>)
    ensures result == MemoryAfterCopy(source, target)
  {
    if source.None? {
      return target;
    }
    var src := source.value;
    var t0 := target.GetOr(map[]);
    var dir := t0;
    var pending := src.Keys;
    while pending != {}
      invariant pending <= src.Keys
      invariant forall n :: n in dir <==> n in t0 || (n in src && n !in pending)
      invariant forall n :: n in dir ==> dir[n] == if n in t0 then t0[n] else src[n]
      decreases pending
    {
      var item :| item in pending;
      if item !in dir {
        dir := dir[item := src[item]];
      }
      pending := pending - {item};
    }
    assert dir.Keys == Merged(t0, src).Keys;
    assert forall n :: n in dir ==> dir[n] == Merged(t0, src)[n];
    assert dir == Merged(t0, src);
    result := Some(dir);
  }

  /** Copying with a source twice in a row gives what copying once gives. */
  lemma CopyIdempotent(source: Option<Tree>, target: Option<Tree>)
    ensures MemoryAfterCopy(source, MemoryAfterCopy(source, target)) == MemoryAfterCopy(source, target)
  {
    if source.Some? {
      MergedIdempotent(target.GetOr(map[]), source.value);
    }
  }
}
