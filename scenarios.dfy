/** Clients of the shell options: what a caller can conclude from the contracts alone. */
module Scenarios {
  import opened Wrappers
  import opened Store
  import opened ShellOptions
  import opened Features

  /**
   * Registering the file handler on a hive that accepts every write and then
   * deregistering it reports that it was registered, and leaves the hive as
   * it was before with the file handler's subtree removed.
   */
  method FileHandlerLifecycle(env: Environment, hive: Hive) returns (completions: nat, wasRegistered: bool)
    requires hive.locked == {}
    modifies hive
    ensures completions == 1 && wasRegistered
    ensures hive.keys == Pruned(old(hive.keys), FileHandlerRoot(env))
  {
    var f := FileHandler(env);
    var option := new ShellOption(hive, f.key, f.parts);
    completions := option.Register();
    assert Configured(env)[0] == f;
    ConfiguredRegisterMarks(env, old(hive.keys), hive.locked, 0);
    DeregisterUndoesRegister(old(hive.keys), hive.locked, f.key, f.parts);
    var err;
    err, wasRegistered := option.Deregister();
  }
}
