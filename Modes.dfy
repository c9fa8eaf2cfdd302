/**
  The rule's single option, and the mode it selects. The option is either
  absent, one of five names, or an object carrying a minimum item count.
*/
module Modes {
  import opened Wrappers

  /** The resolved behaviour of the rule; exactly one is active. */
  datatype Mode =
    | Multiline
    | MultilineArguments
    | Always
    | Never
    | Consistent
    | MinItems(n: nat)

  /** The option as written in a configuration: a name such as `"never"`, or `{ minItems: n }`. */
  datatype Setting = Named(name: string) | MinItemsObject(minItems: nat)

  /** The names the option may take. */
  const ModeNames: set<string> := {"multiline", "multiline-arguments", "always", "never", "consistent"}

  /**
    The mode an option selects: no option means `"multiline"`. A name the rule
    does not know selects nothing; the host rejects such a configuration
    before the rule runs.
  */
  function Resolve(option: Option<Setting>): (r: Option<Mode>)
    ensures option.None? ==> r == Some(Multiline)
    ensures r.None? <==> option.Some? && option.value.Named? && option.value.name !in ModeNames
    ensures r.Some? && option.Some? ==> SettingOf(r.value) == option.value
  {
    match option
    case None => Some(Multiline)
    case Some(MinItemsObject(n)) => Some(MinItems(n))
    case Some(Named(name)) =>
      if name == "multiline" then Some(Multiline)
      else if name == "multiline-arguments" then Some(MultilineArguments)
      else if name == "always" then Some(Always)
      else if name == "never" then Some(Never)
      else if name == "consistent" then Some(Consistent)
      else None
  }

  /** The option that a user writes to select `m`. */
  function SettingOf(m: Mode): Setting {
    match m
    case Multiline => Named("multiline")
    case MultilineArguments => Named("multiline-arguments")
    case Always => Named("always")
    case Never => Named("never")
    case Consistent => Named("consistent")
    case MinItems(n) => MinItemsObject(n)
  }

  /** Every mode can be selected, by exactly the option `SettingOf` names. */
  lemma ResolveSettingOf(m: Mode)
    ensures Resolve(Some(SettingOf(m))) == Some(m)
  {
  }

  /** Every option that selects a mode is the option `SettingOf` gives for that mode. */
  lemma ResolveOnlyKnown(s: Setting, m: Mode)
    requires Resolve(Some(s)) == Some(m)
    ensures SettingOf(m) == s
  {
  }

  /** Writing no option and writing `"multiline"` select the same mode. */
  lemma DefaultIsMultiline()
    ensures Resolve(None) == Resolve(Some(Named("multiline"))) == Some(Multiline)
  {
  }
}
