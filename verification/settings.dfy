/** The default-merge step of loading the settings file. */
module Settings {

  /** A value read from the settings file. */
  datatype Setting = Text(s: string) | Flag(b: bool) | OtherJson

  /** The defaults, in their declaration order. */
  const DefaultSettings: seq<(string, Setting)> := [
    ("photoshop_exe", Text("C:\\Program Files\\Adobe\\Adobe Photoshop 2025\\Photoshop.exe")),
    ("language", Text("zh")),
    ("frame_step", Text("3")),
    ("crop_w", Text("256")),
    ("crop_h", Text("256")),
    ("final_w", Text("128")),
    ("final_h", Text("128")),
    ("geometry", Text("1000x750")),
    ("clean_temp_files", Flag(false))
  ]

  predicate DistinctKeys(defaults: seq<(string, Setting)>)
  {
    forall i, j :: 0 <= i < j < |defaults| ==> defaults[i].0 != defaults[j].0
  }

  /**
   * Every default key missing from the loaded settings is added with its
   * default value; every loaded entry is kept as it was, known key or not.
   */
  method MergeDefaults(loaded: map<string, Setting>, defaults: seq<(string, Setting)>)
    returns (merged: map<string, Setting>)
    requires DistinctKeys(defaults)
    ensures merged.Keys == loaded.Keys + set i | 0 <= i < |defaults| :: defaults[i].0
    ensures forall k :: k in loaded ==> merged[k] == loaded[k]
    ensures forall i :: 0 <= i < |defaults| && defaults[i].0 !in loaded ==>
      merged[defaults[i].0] == defaults[i].1
  {
    merged := loaded;
    for n := 0 to |defaults|
      invariant merged.Keys == loaded.Keys + set i | 0 <= i < n :: defaults[i].0
      invariant forall k :: k in loaded ==> merged[k] == loaded[k]
      invariant forall i :: 0 <= i < n && defaults[i].0 !in loaded ==> merged[defaults[i].0] == defaults[i].1
    {
      var (key, value) := defaults[n];
      if key !in merged {
        merged := merged[key := value];
      }
    }
  }
}
