/** The command-line configuration and the defaulting `main` applies after validation. */
module Settings {

  /** The output directory after defaulting: `<package>_output` when none was given. */
  function OutputDirFor(packageName: string, given: string): (d: string)
    ensures given != "" ==> d == given
    ensures given == "" ==> |d| == |packageName| + 7 && d[..|packageName|] == packageName && d[|packageName|..] == "_output"
  {
    if given == "" then packageName + "_output" else given
  }

  /** The device data directory after defaulting: `/data/data/<package>` when none was given. */
  function DeviceDirFor(packageName: string, given: string): (d: string)
    ensures given != "" ==> d == given
    ensures given == "" ==> |d| == 11 + |packageName| && d[..11] == "/data/data/" && d[11..] == packageName
  {
    if given == "" then "/data/data/" + packageName else given
  }

  /** Defaulting twice is defaulting once, and a defaulted value is never empty. */
  lemma DefaultsSettle(packageName: string, outputDir: string, deviceDir: string)
    ensures OutputDirFor(packageName, OutputDirFor(packageName, outputDir)) == OutputDirFor(packageName, outputDir)
    ensures DeviceDirFor(packageName, DeviceDirFor(packageName, deviceDir)) == DeviceDirFor(packageName, deviceDir)
    ensures OutputDirFor(packageName, outputDir) != "" && DeviceDirFor(packageName, deviceDir) != ""
  {
    var o := OutputDirFor(packageName, outputDir);
    var d := DeviceDirFor(packageName, deviceDir);
    assert outputDir == "" ==> |o| == |packageName| + 7;
    assert deviceDir == "" ==> |d| == 11 + |packageName|;
  }

  class Config {
    var apkPath: string
    var packageName: string
    var outputDir: string
    var deviceDir: string
    var mobsf: bool
    var traffic: bool
    var verbose: bool
    var threads: int

    /** The values the flags were parsed into. */
    constructor (apkPath: string, packageName: string, outputDir: string, deviceDir: string,
                 mobsf: bool, traffic: bool, verbose: bool, threads: int)
      ensures this.apkPath == apkPath && this.packageName == packageName
      ensures this.outputDir == outputDir && this.deviceDir == deviceDir
      ensures this.mobsf == mobsf && this.traffic == traffic && this.verbose == verbose
      ensures this.threads == threads
    {
      this.apkPath := apkPath;
      this.packageName := packageName;
      this.outputDir := outputDir;
      this.deviceDir := deviceDir;
      this.mobsf := mobsf;
      this.traffic := traffic;
      this.verbose := verbose;
      this.threads := threads;
    }

    /** The validation `main` performs: both the APK path and the package name are required. */
    predicate HasRequired()
      reads this
      ensures HasRequired() <==> |apkPath| > 0 && |packageName| > 0
    {
      apkPath != "" && packageName != ""
    }

    /** Fill in the output and device directories when they were left empty. */
    method ApplyDefaults()
      modifies this`outputDir, this`deviceDir
      ensures outputDir == OutputDirFor(packageName, old(outputDir))
      ensures deviceDir == DeviceDirFor(packageName, old(deviceDir))
    {
      if outputDir == "" {
        outputDir := packageName + "_output";
      }
      if deviceDir == "" {
        deviceDir := "/data/data/" + packageName;
      }
    }
  }
}
