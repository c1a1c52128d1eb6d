/** Where the configuration file is looked for, and its relocation to the system
    path.  Files are a map from path to content; a copy may fail and may then leave
    part of the content behind. */
module Setup {
  import opened Prelude

  datatype Path =
    | SystemConfig   // /etc/nexus-link/config.toml
    | StateConfig    // /var/lib/nexus-link/config.toml
    | UserConfig     // ~/.nexus-link/config.toml
    | UserKey        // ~/.nexus-link/signing_key.pub
    | StateKey       // /var/lib/nexus-link/signing_key.pub
    | Override(path: string)

  type FileSystem = map<Path, string>

  /** The environment override, else the first of the three that exists, else the
      user path. */
  function EffectiveConfigPath(override: Option<string>, files: FileSystem): Path {
    if override.Some? then Override(override.value)
    else if SystemConfig in files then SystemConfig
    else if StateConfig in files then StateConfig
    else UserConfig
  }

  /** What `Config::load` reads, if anything. */
  function EffectiveContent(override: Option<string>, files: FileSystem): Option<string> {
    var path := EffectiveConfigPath(override, files);
    if path in files then Some(files[path]) else None
  }

  /** The override is taken even if there is no such file; otherwise the system path goes
      first, then the state directory, then the user's. */
  lemma PathPrecedence(files: FileSystem, path: string)
    ensures EffectiveContent(Some(path), files) ==
              if Override(path) in files then Some(files[Override(path)]) else None
    ensures SystemConfig in files ==> EffectiveContent(None, files) == Some(files[SystemConfig])
    ensures SystemConfig !in files && StateConfig in files ==> EffectiveContent(None, files) == Some(files[StateConfig])
    ensures SystemConfig !in files && StateConfig !in files ==>
              EffectiveContent(None, files) == if UserConfig in files then Some(files[UserConfig]) else None
    ensures SystemConfig !in files && StateConfig !in files ==> EffectiveConfigPath(None, files) == UserConfig
  {}

  datatype StepStatus = Skipped | Created | Failed

  /** What a `cp` leaves at its target: the whole content, nothing, or, when it fails
      half way, the beginning of it. */
  datatype Copy = Whole | Nothing | CutShort(kept: nat)

  function Copied(copy: Copy, content: string): Option<string> {
    match copy
    case Whole => Some(content)
    case Nothing => None
    case CutShort(kept) => Some(if kept < |content| then content[..kept] else content)
  }

  function Put(files: FileSystem, path: Path, content: Option<string>): FileSystem {
    if content.Some? then files[path := content.value] else files
  }

  // ----- the relocation as a function on files -----

  /** Where the configuration is copied from, if it is. */
  function Source(files: FileSystem): Option<Path> {
    if SystemConfig in files then None
    else if StateConfig in files then Some(StateConfig)
    else if UserConfig in files then Some(UserConfig)
    else None
  }

  function WithKey(files: FileSystem, keyCopy: Copy): FileSystem {
    if StateKey !in files && UserKey in files then Put(files, StateKey, Copied(keyCopy, files[UserKey])) else files
  }

  /** The files after the relocation, given what became of its two copies. */
  function Relocated(files: FileSystem, copy: Copy, keyCopy: Copy): FileSystem {
    match Source(files)
    case None => files
    case Some(source) => WithKey(Put(files, SystemConfig, Copied(copy, files[source])), keyCopy)
  }

  /** The relocation copies, and its copy loses the end of the content. */
  predicate LosesTail(files: FileSystem, copy: Copy) {
    && Source(files).Some? && copy.CutShort? && copy.kept < |files[Source(files).value]|
  }

  /** Nothing that was there is changed, at most two files appear, and the effective
      configuration is the same exactly when the copy is not cut short. */
  lemma RelocationKeepsIff(files: FileSystem, copy: Copy, keyCopy: Copy)
    ensures var after := Relocated(files, copy, keyCopy);
            && files.Keys <= after.Keys <= files.Keys + {SystemConfig, StateKey}
            && (forall p | p in files :: after[p] == files[p])
            && (StateKey in after <==>
                  StateKey in files || (Source(files).Some? && UserKey in files && !keyCopy.Nothing?))
            && (StateKey in after && StateKey !in files ==>
                  if keyCopy.Whole? then after[StateKey] == files[UserKey]
                  else after[StateKey] == files[UserKey][..|after[StateKey]|] && |after[StateKey]| <= keyCopy.kept)
            && (EffectiveContent(None, after) == EffectiveContent(None, files) <==> !LosesTail(files, copy))
  {}

  /** Once the first run has left a file at the system path, whole or not, another run
      changes nothing, whatever becomes of its copies.  So a rerun does not repair a copy
      that was cut short. */
  lemma RelocateTwice(files: FileSystem, copy: Copy, keyCopy: Copy, again: Copy, keyAgain: Copy)
    requires !copy.Nothing?
    ensures Relocated(Relocated(files, copy, keyCopy), again, keyAgain) == Relocated(files, copy, keyCopy)
    ensures var after := Relocated(Relocated(files, copy, keyCopy), again, keyAgain);
            EffectiveContent(None, after) == EffectiveContent(None, files) <==> !LosesTail(files, copy)
  {
    RelocationKeepsIff(files, copy, keyCopy);
  }

  /** If the first run left nothing there, another run is a first run again, except that
      a key already copied stays. */
  lemma RelocateRetry(files: FileSystem, keyCopy: Copy, again: Copy, keyAgain: Copy)
    ensures Relocated(Relocated(files, Nothing, keyCopy), again, keyAgain) ==
            Relocated(files, again, if keyCopy.Nothing? then keyAgain else keyCopy)
  {}

  class Machine {
    var files: FileSystem

    constructor (files: FileSystem)
      ensures this.files == files
    {
      this.files := files;
    }

    /** `copy`, `keyCopy`: what became of the two copies; `owned`: the changes of
        owner and mode after the first one succeeded. */
    method MigrateLegacyConfig(copy: Copy, owned: bool, keyCopy: Copy) returns (status: StepStatus)
      modifies this
      ensures files == Relocated(old(files), copy, keyCopy)
      ensures EffectiveContent(None, files) == EffectiveContent(None, old(files)) <==> !LosesTail(old(files), copy)
      ensures status == Skipped <==> SystemConfig in old(files) || EffectiveContent(None, old(files)) == None
      ensures status == Created <==> status != Skipped && copy.Whole? && owned
      ensures status == Skipped ==> files == old(files)
    {
      RelocationKeepsIff(files, copy, keyCopy);
      if SystemConfig in files {
        return Skipped;
      }
      var source;
      if StateConfig in files {
        source := StateConfig;
      } else if UserConfig in files {
        source := UserConfig;
      } else {
        return Skipped;
      }
      files := Put(files, SystemConfig, Copied(copy, files[source]));
      if StateKey !in files {
        ghost var before := files;
        var locations := [UserKey, StateKey];
        for i := 0 to |locations|
          invariant files == before
          invariant i > 0 ==> UserKey !in files
        {
          if locations[i] in files {
            files := Put(files, StateKey, Copied(keyCopy, files[locations[i]]));
            break;
          }
        }
      }
      status := if copy.Whole? && owned then Created else Failed;
    }
  }
}
