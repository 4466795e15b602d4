/**
 * `PathOption`: membership of the application's binary directory in the
 * user's PATH. Whether it is registered is decided by scanning the values
 * of the user environment key; adding and removing are delegated to a
 * PowerShell script, of which only the call itself is modelled.
 */
module PathOptions {
  import opened Wrappers
  import opened Text

  /** The user environment key and the key recording the install location. */
  const UserEnvironmentKey: string := "\\Environment"
  const InstallRecordKey: string := "\\SOFTWARE\\0949b555-c22c-56b7-873a-a960bdefa81f"

  const PathName: string := "Path"
  const ResourcesMarker: string := "Pulsar\\resources"
  const PpmBinMarker: string := "Pulsar\\resources\\app\\ppm\\bin"

  /** One value of the environment key, as `values` lists it. */
  datatype EnvItem = EnvItem(name: string, value: string)

  /** The value is the user's PATH and names either install directory. */
  predicate MarksInstall(item: EnvItem) {
    item.name == PathName && (Contains(item.value, ResourcesMarker) || Contains(item.value, PpmBinMarker))
  }

  /** Some listed value marks the install. */
  predicate PathMarked(items: seq<EnvItem>) {
    exists i | 0 <= i < |items| :: MarksInstall(items[i])
  }

  /** The bin directory lies inside the resources directory, so the second marker adds nothing. */
  lemma PpmBinImpliesResources(s: string)
    ensures Contains(s, PpmBinMarker) ==> Contains(s, ResourcesMarker)
  {
    if Contains(s, PpmBinMarker) {
      assert PpmBinMarker == ResourcesMarker + "\\app\\ppm\\bin";
      ContainsPrefixOfPattern(s, ResourcesMarker, "\\app\\ppm\\bin");
    }
  }

  /**
   * The loop of `isRegistered` over the listed values: the flag is set iff
   * some value named exactly `Path` contains `Pulsar\resources`.
   */
  method ScanPath(items: seq<EnvItem>) returns (isUserInstalled: bool)
    ensures isUserInstalled == PathMarked(items)
    ensures isUserInstalled <==>
      exists i | 0 <= i < |items| :: items[i].name == PathName && Contains(items[i].value, ResourcesMarker)
  {
    isUserInstalled := false;
    for i := 0 to |items|
      invariant isUserInstalled <==> exists j | 0 <= j < i :: MarksInstall(items[j])
    {
      if items[i].name == PathName {
        var winPath := items[i].value;
        if Contains(winPath, ResourcesMarker) || Contains(winPath, PpmBinMarker) {
          isUserInstalled := true;
        }
      }
    }
    forall i | 0 <= i < |items| ensures MarksInstall(items[i]) <==>
      items[i].name == PathName && Contains(items[i].value, ResourcesMarker)
    {
      PpmBinImpliesResources(items[i].value);
    }
  }

  /** Values not named `Path` never change the answer, wherever they are listed. */
  lemma {:induction false} OtherValuesIgnored(xs: seq<EnvItem>, item: EnvItem, ys: seq<EnvItem>)
    requires item.name != PathName
    ensures PathMarked(xs + [item] + ys) == PathMarked(xs + ys)
  {
    var whole, rest := xs + [item] + ys, xs + ys;
    if PathMarked(whole) {
      var i :| 0 <= i < |whole| && MarksInstall(whole[i]);
      assert i != |xs|;
      var j := if i < |xs| then i else i - 1;
      assert rest[j] == whole[i];
    }
    if PathMarked(rest) {
      var j :| 0 <= j < |rest| && MarksInstall(rest[j]);
      var i := if j < |xs| then j else j + 1;
      assert whole[i] == rest[j];
    }
  }

  /** A call of the PATH helper script: the script's path and its arguments. */
  datatype Invocation = Invocation(script: string, args: seq<string>)

  datatype PathError = InstallPathUnknown

  /**
   * The script call of `register` (remove = false) and `deregister`
   * (remove = true). The install location must be known and non-empty
   * before any script is launched.
   */
  function ScriptCall(installPath: Option<string>, remove: bool): (r: Result<Invocation, PathError>)
    ensures r.Failure? <==> installPath.None? || installPath.value == ""
    ensures r.Success? ==> r.value.script == installPath.value + "\\resources\\modifyWindowsPath.ps1"
  {
    match installPath
    case None => Failure(InstallPathUnknown)
    case Some(dir) =>
      if dir == "" then Failure(InstallPathUnknown)
      else Success(Invocation(dir + "\\resources\\modifyWindowsPath.ps1",
             ["-installMode", "User", "-installdir", "\"" + dir + "\"", "-remove", if remove then "1" else "0"]))
  }

  /**
   * Adding and removing run the same script on the same directory, always in
   * user mode, and differ only in the remove flag.
   */
  lemma AddAndRemoveDifferOnlyInFlag(installPath: Option<string>)
    requires ScriptCall(installPath, false).Success?
    ensures var add, del := ScriptCall(installPath, false).value, ScriptCall(installPath, true).value;
      && add.script == del.script && |add.args| == |del.args| == 6
      && add.args[..5] == del.args[..5]
      && add.args[1] == "User" && add.args[3] == "\"" + installPath.value + "\""
      && add.args[5] == "0" && del.args[5] == "1"
  {
  }
}
