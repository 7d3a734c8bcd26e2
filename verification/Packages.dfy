/** Package instances and the installed state as dpkg reports it. */
module Packages {

  datatype Instance = Instance(package: string, version: string, architecture: string)

  datatype Selection = Unknown | Install | Hold | Deinstall | Purge

  datatype Status =
    | NotInstalled | ConfigFiles | HalfInstalled | Unpacked
    | HalfConfigured | TriggersAwaited | TriggersPending | Installed

  datatype Record = Record(package: Instance, selection: Selection, status: Status, reinstallRequired: bool,
                           multiArch: string, pending: seq<string>, awaited: seq<string>)

  datatype State = State(identity: string, native: string, architectures: seq<string>, packages: map<string, Record>)

  function Key(p: Instance): string {
    p.package + ":" + p.architecture
  }

  predicate Active(s: Status) {
    s == Installed || s == TriggersPending
  }

  predicate Historical(s: Status) {
    s == Unpacked || s == HalfConfigured || s == TriggersAwaited
  }

  predicate Configured(s: Status) {
    s == TriggersAwaited || s == TriggersPending || s == Installed
  }

  datatype ActionKind = Unpack | Configure | Remove | Purge | Triggers | Deconfigure

  datatype ReviewedAction = ReviewedAction(identifier: nat, action: ActionKind, package: Instance, archive: string)

  /** The control fields of a package by lower-case name. */
  type Controls = map<string, string>

  function At(c: Controls, name: string): string {
    if name in c then c[name] else ""
  }
}
