/** The static configuration of config/settings.py: the platform family the run
    is on, and the table of resources to inventory. */
module Settings {
  import opened OrderedDicts

  /** `platform.system()`, as far as the tool distinguishes it: "Windows" or anything else. */
  datatype Platform = Windows | PosixLike

  /** One `RESOURCES` entry: the argument that makes the tool report its version,
      and the page the latest published version is looked up from. */
  datatype ResourceConfig = ResourceConfig(versionArgs: string, url: string)

  /** `RESOURCES` in config/settings.py: only "node" is enabled there. */
  const Resources: ODict<string, ResourceConfig> :=
    ODict(["node"], map["node" := ResourceConfig("--version", "https://nodejs.org/en/")])
}
