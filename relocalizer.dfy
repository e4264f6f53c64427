/**
 * The plugin's reload state: the debounce timer and the published override
 * tables. The directory listing, the host's language list and the
 * "Overwrite duplicate keys" setting are passed in where the source reads them.
 */
module Relocalizer {
  import opened Tables
  import ConfigMerge
  import Debounce

  class Relocalizer {
    var timeToReadConfigs: real
    /** `relocalizedStrings`: language -> override table, replaced as a whole. */
    const relocalizedStrings: SyncedValue

    constructor (relocalizedStrings: SyncedValue)
      ensures this.relocalizedStrings == relocalizedStrings
      ensures timeToReadConfigs == Debounce.Disarmed
    {
      this.relocalizedStrings := relocalizedStrings;
      timeToReadConfigs := Debounce.Disarmed;
    }

    /** `ReadConfigs`: builds the new tables off to the side, then publishes them in one assignment. */
    method ReadConfigs(files: seq<ConfigMerge.ConfigFile>, languages: set<string>, overwriteDuplicates: bool)
      modifies relocalizedStrings
      ensures relocalizedStrings.value == ConfigMerge.MergeAll(files, languages, overwriteDuplicates)
    {
      var newValue := ConfigMerge.LoadConfigs(files, languages, overwriteDuplicates);
      relocalizedStrings.value := newValue;
    }

    /** `StartReadConfigs`: any watcher event (re)arms the timer. */
    method StartReadConfigs()
      modifies this`timeToReadConfigs
      ensures timeToReadConfigs == Debounce.Apply(old(timeToReadConfigs), Debounce.FileEvent).0
    {
      timeToReadConfigs := 0.0;
    }

    /** `UpdateReadConfigs`, called from `FixedUpdate` with the directory as it is at that tick. */
    method UpdateReadConfigs(fixedDeltaTime: real, files: seq<ConfigMerge.ConfigFile>, languages: set<string>, overwriteDuplicates: bool)
      modifies this`timeToReadConfigs, relocalizedStrings
      ensures timeToReadConfigs == Debounce.Tick(old(timeToReadConfigs), fixedDeltaTime).0
      ensures Debounce.Tick(old(timeToReadConfigs), fixedDeltaTime).1 ==>
        relocalizedStrings.value == ConfigMerge.MergeAll(files, languages, overwriteDuplicates)
      ensures !Debounce.Tick(old(timeToReadConfigs), fixedDeltaTime).1 ==>
        relocalizedStrings.value == old(relocalizedStrings.value)
    {
      if timeToReadConfigs == Debounce.Disarmed {
        return;
      } else if timeToReadConfigs > Debounce.QuietPeriod {
        timeToReadConfigs := Debounce.Disarmed;
        ReadConfigs(files, languages, overwriteDuplicates);
      } else {
        timeToReadConfigs := timeToReadConfigs + fixedDeltaTime;
      }
    }
  }
}
