/**
 * `getPIDByExeName`: a first-match search over the running processes for one
 * whose lower-cased executable name equals the requested name. The process
 * list is an input; `None` stands for the enumeration itself failing.
 */
module ProcessLookup {
  import opened Common

  /** gopsutil keeps a process id as a signed 32-bit integer. */
  type Int32 = x: int | -0x8000_0000 <= x < 0x8000_0000

  /** One process: its id, and its name unless reading the name failed. */
  datatype Proc = Proc(pid: Int32, name: Option<string>)

  /** Why the lookup returned an error. */
  datatype Failure = ListFailed | NoSuchProcess

  /** The lower-cased name matches; `exeName` itself is compared as given. */
  predicate Matches(p: Proc, exeName: string)
  {
    p.name.Some? && ToLower(p.name.value) == exeName
  }

  /** Process `i` is the first one whose name matches. */
  predicate FirstMatch(ps: seq<Proc>, exeName: string, i: nat)
  {
    i < |ps| && Matches(ps[i], exeName) && forall j :: 0 <= j < i ==> !Matches(ps[j], exeName)
  }

  /** Go's `uint32(pid)` on an `int32`: negative ids wrap around. */
  function ToUint32(pid: Int32): (u: nat)
    ensures u < 0x1_0000_0000
    ensures pid >= 0 ==> u == pid
    ensures pid < 0 ==> u == pid + 0x1_0000_0000
  {
    pid % 0x1_0000_0000
  }

  /**
   * The result is (0, error) when the list cannot be read or no process
   * matches, and otherwise the id of the first matching process with no error.
   */
  method GetPIDByExeName(procs: Option<seq<Proc>>, exeName: string) returns (pid: nat, failure: Option<Failure>)
    ensures failure.Some? ==> pid == 0
    ensures failure == Some(ListFailed) <==> procs.None?
    ensures failure == Some(NoSuchProcess) <==>
              procs.Some? && forall i :: 0 <= i < |procs.value| ==> !Matches(procs.value[i], exeName)
    ensures failure.None? ==>
              procs.Some? &&
              exists i: nat :: FirstMatch(procs.value, exeName, i) && pid == ToUint32(procs.value[i].pid)
  {
    if procs.None? {
      return 0, Some(ListFailed);
    }
    var ps := procs.value;
    var i := 0;
    while i < |ps|
      invariant 0 <= i <= |ps|
      invariant forall j :: 0 <= j < i ==> !Matches(ps[j], exeName)
    {
      var name := ps[i].name;
      if name.Some? && ToLower(name.value) == exeName {
        return ToUint32(ps[i].pid), None;
      }
      i := i + 1;
    }
    return 0, Some(NoSuchProcess);
  }

  /** A requested name holding an upper-case ASCII letter matches no process at all. */
  lemma UpperCaseNeverMatches(p: Proc, exeName: string, k: nat)
    requires k < |exeName| && IsAsciiUpper(exeName[k])
    ensures !Matches(p, exeName)
  {
    if p.name.Some? && |ToLower(p.name.value)| == |exeName| {
      assert !IsAsciiUpper(ToLower(p.name.value)[k]);
    }
  }

  /** Matching ignores the case of the process name: "Foo.EXE" is found as "foo.exe". */
  lemma MatchExample()
    ensures Matches(Proc(42, Some("Foo.EXE")), "foo.exe")
    ensures !Matches(Proc(42, Some("Foo.EXE")), "Foo.EXE")
    ensures !Matches(Proc(42, None), "foo.exe")
  {
    UpperCaseNeverMatches(Proc(42, Some("Foo.EXE")), "Foo.EXE", 0);
  }

  /**
   * `sendProcessIconToDisplayByProcessName`: look the name up and fetch the
   * icon of the id found, unless the lookup failed or the id is 0. The result
   * is the id whose icon is fetched, if any.
   */
  method IconPidFor(procs: Option<seq<Proc>>, exeName: string) returns (fetch: Option<nat>)
    ensures fetch.Some? <==>
              procs.Some? && exists i: nat :: FirstMatch(procs.value, exeName, i) && ToUint32(procs.value[i].pid) != 0
    ensures fetch.Some? ==>
              procs.Some? && exists i: nat :: FirstMatch(procs.value, exeName, i) && fetch.value == ToUint32(procs.value[i].pid)
  {
    var pid, failure := GetPIDByExeName(procs, exeName);
    if failure.Some? || pid == 0 {
      if failure.None? {
        forall i: nat | FirstMatch(procs.value, exeName, i)
          ensures ToUint32(procs.value[i].pid) == 0
        {
          var k: nat :| FirstMatch(procs.value, exeName, k) && pid == ToUint32(procs.value[k].pid);
          FirstMatchUnique(procs.value, exeName, i, k);
        }
      } else if procs.Some? {
        assert failure.value.NoSuchProcess? && failure == Some(NoSuchProcess);
        forall i: nat | i < |procs.value|
          ensures !FirstMatch(procs.value, exeName, i)
        {
          assert !Matches(procs.value[i], exeName);
        }
      }
      return None;
    }
    return Some(pid);
  }

  /** The first match, when there is one, is unique. */
  lemma FirstMatchUnique(ps: seq<Proc>, exeName: string, i: nat, k: nat)
    requires FirstMatch(ps, exeName, i) && FirstMatch(ps, exeName, k)
    ensures i == k
  {
  }
}
