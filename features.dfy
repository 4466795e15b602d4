/**
 * The four shell options the module exports: the file handler, the file
 * and folder context-menu entries, and the folder-background entry whose
 * parts are the context-menu parts with the placeholder `%1` rewritten to
 * `%V`. Strings derived from the running executable are parameters.
 */
module Features {
  import opened Wrappers
  import opened Text
  import opened Store
  import opened ShellOptions

  /** `process.execPath`, its base name, the application name and the joined icon path. */
  datatype Environment = Environment(execPath: string, exeName: string, appName: string, iconFile: string)

  /** A root key and the parts written under it. */
  datatype Feature = Feature(key: string, parts: seq<Part>)

  function Quoted(s: string): string {
    "\"" + s + "\""
  }

  function AppPath(env: Environment): string {
    Quoted(env.execPath)
  }

  function FileIconPath(env: Environment): string {
    Quoted(env.iconFile)
  }

  /** The shell substitutes the selected file for `%1` and the folder for `%V`. */
  const Placeholder: string := "%1"
  const FolderPlaceholder: string := "%V"

  function OpenCommand(env: Environment): string {
    AppPath(env) + " \"%1\""
  }

  function FileHandlerRoot(env: Environment): string {
    "\\Software\\Classes\\Applications\\" + env.exeName
  }

  function FileMenuRoot(env: Environment): string {
    "\\Software\\Classes\\*\\shell\\" + env.appName
  }

  function FolderMenuRoot(env: Environment): string {
    "\\Software\\Classes\\Directory\\shell\\" + env.appName
  }

  function BackgroundMenuRoot(env: Environment): string {
    "\\Software\\Classes\\Directory\\background\\shell\\" + env.appName
  }

  function FileHandler(env: Environment): (f: Feature)
    ensures |f.parts| == 3 && f.parts[0].subKey.Some?
    ensures DistinctSlots(f.key, f.parts)
  {
    Feature(FileHandlerRoot(env),
      [ Part(Some("shell\\open\\command"), "", OpenCommand(env)),
        Part(Some("shell\\open"), "FriendlyAppName", env.appName),
        Part(Some("DefaultIcon"), "", FileIconPath(env)) ])
  }

  /** The parts shared by the file and folder context-menu entries. */
  function ContextParts(env: Environment): (ps: seq<Part>)
    ensures |ps| == 3 && ps[0].subKey.Some?
    ensures forall key :: DistinctSlots(key, ps)
  {
    [ Part(Some("command"), "", OpenCommand(env)),
      Part(None, "", "Open with " + env.appName),
      Part(None, "Icon", AppPath(env)) ]
  }

  /** The "Open with" entry of every file's context menu. */
  function FileContextMenu(env: Environment): (f: Feature)
    ensures |f.parts| == 3 && f.parts[0].subKey.Some? && DistinctSlots(f.key, f.parts)
  {
    Feature(FileMenuRoot(env), ContextParts(env))
  }

  /** The "Open with" entry of every folder's context menu. */
  function FolderContextMenu(env: Environment): (f: Feature)
    ensures |f.parts| == 3 && f.parts[0].subKey.Some? && DistinctSlots(f.key, f.parts)
  {
    Feature(FolderMenuRoot(env), ContextParts(env))
  }

  /**
   * The "Open with" entry of a folder background's context menu: the
   * context-menu parts, of which at most a part holding `%1` differs.
   */
  function FolderBackgroundContextMenu(env: Environment): (f: Feature)
    ensures |f.parts| == 3 && f.parts[0].subKey.Some?
    ensures forall i :: 0 <= i < 3 ==> f.parts[i] == ContextParts(env)[i] || Mentions(ContextParts(env)[i])
  {
    Feature(BackgroundMenuRoot(env), RewritePlaceholder(ContextParts(env)))
  }

  /** The exported features, in the order the module declares them. */
  function Configured(env: Environment): (fs: seq<Feature>)
    ensures |fs| == 4
    ensures fs[1].parts == fs[2].parts == ContextParts(env)
  {
    [FileHandler(env), FileContextMenu(env), FolderContextMenu(env), FolderBackgroundContextMenu(env)]
  }

  /** Some field of the part holds the placeholder. */
  predicate Mentions(p: Part) {
    (p.subKey.Some? && Contains(p.subKey.value, Placeholder)) || Contains(p.name, Placeholder) || Contains(p.value, Placeholder)
  }

  /** Rewrites the first occurrence of the placeholder in the part's fields, taken in the order key, name, value. */
  function RewritePart(p: Part): (r: Part)
    requires Mentions(p)
    ensures r.subKey.Some? == p.subKey.Some?
  {
    if p.subKey.Some? && Contains(p.subKey.value, Placeholder) then
      p.(subKey := Some(ReplaceFirst(p.subKey.value, Placeholder, FolderPlaceholder)))
    else if Contains(p.name, Placeholder) then
      p.(name := ReplaceFirst(p.name, Placeholder, FolderPlaceholder))
    else
      p.(value := ReplaceFirst(p.value, Placeholder, FolderPlaceholder))
  }

  /** The index of the first part at or after `from` that holds the placeholder. */
  function FirstMentionFrom(ps: seq<Part>, from: nat): (r: Option<nat>)
    ensures r.Some? ==> from <= r.value < |ps| && Mentions(ps[r.value])
    ensures r.Some? ==> forall j :: from <= j < r.value ==> !Mentions(ps[j])
    ensures r.None? ==> forall j :: from <= j < |ps| ==> !Mentions(ps[j])
    decreases |ps| - from
  {
    if from >= |ps| then None
    else if Mentions(ps[from]) then Some(from)
    else FirstMentionFrom(ps, from + 1)
  }

  /**
   * `JSON.parse(JSON.stringify(parts).replace('%1', '%V'))`. The serialised
   * text lists each part's fields in the order key, name, value, and its
   * escapes never produce or split a `%1`, so the one replacement lands on
   * the first occurrence in the first field, in that order, that holds one.
   */
  function RewritePlaceholder(ps: seq<Part>): (r: seq<Part>)
    ensures |r| == |ps|
    ensures forall i :: 0 <= i < |ps| ==> r[i].subKey.Some? == ps[i].subKey.Some?
    ensures forall i :: 0 <= i < |ps| ==> r[i] == ps[i] || Mentions(ps[i])
    ensures (forall i :: 0 <= i < |ps| ==> !Mentions(ps[i])) ==> r == ps
    ensures forall i :: 0 <= i < |ps| && Mentions(ps[i]) && (forall j :: 0 <= j < i ==> !Mentions(ps[j])) ==>
      r == ps[i := RewritePart(ps[i])]
  {
    match FirstMentionFrom(ps, 0)
    case None => ps
    case Some(i) => ps[i := RewritePart(ps[i])]
  }

  /** In the quoted command of a path without `%1`, the first `%1` is the quoted placeholder. */
  lemma QuotedCommandFirstOccurrence(e: string)
    requires !Contains(e, Placeholder)
    ensures var v := Quoted(e) + " \"%1\"";
      IsAt(v, |e| + 4, Placeholder) && forall j :: 0 <= j < |e| + 4 ==> !IsAt(v, j, Placeholder)
  {
    var v := Quoted(e) + " \"%1\"";
    var n := |e|;
    assert v == ['"'] + e + ['"', ' ', '"', '%', '1', '"'];
    forall j | 0 <= j < n + 4 ensures !IsAt(v, j, Placeholder) {
      IsAtTwo(v, j, Placeholder);
      if 1 <= j < n {
        IsAtTwo(e, j - 1, Placeholder);
      }
    }
    IsAtTwo(v, n + 4, Placeholder);
  }

  /** The quoted command of an executable path without `%1` has its first `%1` in the quoted placeholder. */
  lemma QuotedCommandRewrite(e: string)
    requires !Contains(e, Placeholder)
    ensures ReplaceFirst(Quoted(e) + " \"%1\"", Placeholder, FolderPlaceholder) == Quoted(e) + " \"%V\""
  {
    var v := Quoted(e) + " \"%1\"";
    var n := |e|;
    QuotedCommandFirstOccurrence(e);
    ReplaceFirstAt(v, Placeholder, FolderPlaceholder, n + 4);
    assert v[..n + 4] == Quoted(e) + " \"";
    assert v[n + 6..] == "\"";
  }

  /** The first placeholder of the open command is the quoted `%1`, unless the executable path holds one. */
  lemma OpenCommandPlaceholder(env: Environment)
    requires !Contains(env.execPath, Placeholder)
    ensures ReplaceFirst(OpenCommand(env), Placeholder, FolderPlaceholder) == AppPath(env) + " \"%V\""
  {
    QuotedCommandRewrite(env.execPath);
  }

  /**
   * The folder-background parts are the context-menu parts with the same
   * keys and names; only the command's value is rewritten, and it becomes
   * the quoted executable followed by `"%V"` when the executable path
   * itself holds no `%1`.
   */
  lemma BackgroundParts(env: Environment)
    ensures var cp, bg := ContextParts(env), FolderBackgroundContextMenu(env).parts;
      && |bg| == 3 && bg[1] == cp[1] && bg[2] == cp[2]
      && bg[0] == cp[0].(value := ReplaceFirst(cp[0].value, Placeholder, FolderPlaceholder))
      && (forall i :: 0 <= i < 3 ==> bg[i].subKey == cp[i].subKey && bg[i].name == cp[i].name)
      && (!Contains(env.execPath, Placeholder) ==> bg[0].value == AppPath(env) + " \"%V\"")
  {
    var cp := ContextParts(env);
    AbsentFirstChar("command", Placeholder);
    AbsentFirstChar("", Placeholder);
    IsAtTwo(" \"%1\"", 2, Placeholder);
    ContainsInConcat(AppPath(env), " \"%1\"", Placeholder);
    assert Mentions(cp[0]);
    assert RewritePart(cp[0]) == cp[0].(value := ReplaceFirst(cp[0].value, Placeholder, FolderPlaceholder));
    assert FolderBackgroundContextMenu(env).parts == cp[0 := RewritePart(cp[0])];
    if !Contains(env.execPath, Placeholder) {
      OpenCommandPlaceholder(env);
    }
  }

  /** Where `%1` sits in the quoted command built around a path `e` holding it. */
  lemma QuotedCommandOccurrences(e: string, k: nat)
    requires IsAt(e, k, Placeholder)
    ensures var v := Quoted(e) + " \"%1\"";
      IsAt(v, k + 1, Placeholder) && IsAt(v, |e| + 4, Placeholder) && k + 3 <= |e| + 4
  {
    var v := Quoted(e) + " \"%1\"";
    var n := |e|;
    IsAtTwo(e, k, Placeholder);
    assert v[k + 1] == e[k] && v[k + 2] == e[k + 1];
    IsAtTwo(v, k + 1, Placeholder);
    assert v[n + 4] == '%' && v[n + 5] == '1';
    IsAtTwo(v, n + 4, Placeholder);
  }

  /** When `e` holds `%1`, the quoted command keeps its own `%1` after one replacement. */
  lemma QuotedCommandKeepsPlaceholder(e: string)
    requires Contains(e, Placeholder)
    ensures var r := ReplaceFirst(Quoted(e) + " \"%1\"", Placeholder, FolderPlaceholder);
      IsAt(r, |e| + 4, Placeholder) && r != Quoted(e) + " \"%V\""
  {
    var k :| 0 <= k <= |e| - 2 && IsAt(e, k, Placeholder);
    QuotedCommandOccurrences(e, k);
    var v := Quoted(e) + " \"%1\"";
    ReplaceFirstKeepsLater(v, Placeholder, FolderPlaceholder, k + 1, |e| + 4);
    var r := ReplaceFirst(v, Placeholder, FolderPlaceholder);
    var w := Quoted(e) + " \"%V\"";
    IsAtTwo(r, |e| + 4, Placeholder);
    assert w[|e| + 5] == 'V';
    DiffersAt(r, w, |e| + 5);
  }

  /**
   * When the executable path holds `%1`, the single replacement is spent
   * there and the folder-background command still passes `%1`.
   */
  lemma BackgroundKeepsPlaceholderOfExecPath(env: Environment)
    requires Contains(env.execPath, Placeholder)
    ensures var v := FolderBackgroundContextMenu(env).parts[0].value;
      IsAt(v, |AppPath(env)| + 2, Placeholder) && v != AppPath(env) + " \"%V\""
  {
    BackgroundParts(env);
    QuotedCommandKeepsPlaceholder(env.execPath);
  }

  /** The folder-background parts write pairwise-distinct slots under any root. */
  lemma BackgroundDistinct(env: Environment, key: string)
    ensures var bg := RewritePlaceholder(ContextParts(env));
      |bg| > 0 && bg[0].subKey.Some? && DistinctSlots(key, bg)
  {
    BackgroundParts(env);
    var bg, cp := FolderBackgroundContextMenu(env).parts, ContextParts(env);
    assert forall i :: 0 <= i < 3 ==> WriteAddress(key, bg[i]) == WriteAddress(key, cp[i]) && bg[i].name == cp[i].name;
    assert DistinctSlots(key, cp);
  }

  /** Every configured feature has a marker with a sub-key and writes pairwise-distinct slots. */
  lemma ConfiguredWellFormed(env: Environment)
    ensures forall i :: 0 <= i < |Configured(env)| ==>
      var f := Configured(env)[i];
      |f.parts| > 0 && f.parts[0].subKey.Some? && DistinctSlots(f.key, f.parts)
  {
    var fs := Configured(env);
    BackgroundDistinct(env, fs[3].key);
    forall i | 0 <= i < 4 ensures |fs[i].parts| > 0 && fs[i].parts[0].subKey.Some? && DistinctSlots(fs[i].key, fs[i].parts) {
      if i == 0 {
        assert fs[i] == FileHandler(env);
      } else if i < 3 {
        assert fs[i].parts == ContextParts(env);
      } else {
        assert fs[i] == FolderBackgroundContextMenu(env);
      }
    }
  }

  /** Two roots that differ at an index inside both have disjoint subtrees. */
  lemma RootsDiffer(r1: string, r2: string, at: nat)
    requires at < |r1| && at < |r2| && r1[at] != r2[at]
    ensures forall k :: InSubtree(k, r1) ==> !InSubtree(k, r2)
  {
    forall k | InSubtree(k, r1) ensures !InSubtree(k, r2) {
      SubtreeSharesRoot(k, r1, at);
      if InSubtree(k, r2) {
        SubtreeSharesRoot(k, r2, at);
      }
    }
  }

  /** The character of a prefixed root at an index inside the prefix. */
  lemma RootChar(prefix: string, name: string, at: nat)
    requires at < |prefix|
    ensures at < |prefix + name| && (prefix + name)[at] == prefix[at]
  {
  }

  /** The root keys of the configured features, in declaration order. */
  function Roots(env: Environment): seq<string> {
    [FileHandlerRoot(env), FileMenuRoot(env), FolderMenuRoot(env), BackgroundMenuRoot(env)]
  }

  /** The configured features sit at these roots. */
  lemma ConfiguredRoots(env: Environment)
    ensures |Configured(env)| == |Roots(env)|
    ensures forall i :: 0 <= i < |Roots(env)| ==> Configured(env)[i].key == Roots(env)[i]
  {
  }

  /** No key lies in the subtrees of two different configured features. */
  lemma RootsDisjoint(env: Environment)
    ensures forall i, j, k :: 0 <= i < j < |Roots(env)| && InSubtree(k, Roots(env)[i]) ==> !InSubtree(k, Roots(env)[j])
  {
    var rs := Roots(env);
    // The roots first differ right after `\Software\Classes\` (index 18),
    // except the two Directory roots, which differ at index 28.
    forall i, j, k | 0 <= i < j < 4 && InSubtree(k, rs[i]) ensures !InSubtree(k, rs[j]) {
      var at := if i == 2 then 28 else 18;
      RootChar("\\Software\\Classes\\Applications\\", env.exeName, 18);
      RootChar("\\Software\\Classes\\*\\shell\\", env.appName, 18);
      RootChar("\\Software\\Classes\\Directory\\shell\\", env.appName, at);
      RootChar("\\Software\\Classes\\Directory\\background\\shell\\", env.appName, at);
      RootsDiffer(rs[i], rs[j], at);
    }
  }

  /** Registering a configured feature, with its marker key writable, makes it registered. */
  lemma ConfiguredRegisterMarks(env: Environment, m: Keys, locked: set<string>, i: nat)
    requires i < |Configured(env)|
    requires WriteAddress(Configured(env)[i].key, Configured(env)[i].parts[0]) !in locked
    ensures var f := Configured(env)[i];
      Marked(RegisterAll(m, locked, f.key, f.parts), f.key, f.parts)
  {
    ConfiguredWellFormed(env);
    var f := Configured(env)[i];
    RegisterMarks(m, locked, f.key, f.parts);
  }

  /** Registering one configured feature leaves the subtree of every other one untouched. */
  lemma RegisterLeavesOtherFeatures(env: Environment, m: Keys, locked: set<string>, i: nat, j: nat)
    requires i < |Configured(env)| && j < |Configured(env)| && i != j
    ensures var f, g := Configured(env)[i], Configured(env)[j];
      forall k :: InSubtree(k, g.key) ==>
        (k in RegisterAll(m, locked, f.key, f.parts) <==> k in m) && (k in m ==> RegisterAll(m, locked, f.key, f.parts)[k] == m[k])
  {
    var f, g := Configured(env)[i], Configured(env)[j];
    ConfiguredRoots(env);
    RootsDisjoint(env);
    RegisterFrame(m, locked, f.key, f.parts);
    forall k | InSubtree(k, g.key) ensures !InSubtree(k, f.key) {
      assert g.key == Roots(env)[j] && f.key == Roots(env)[i];
    }
  }
}
