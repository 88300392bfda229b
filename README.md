# gradle-artifact-deployer, modelled in Dafny

The deployer republishes a Gradle distribution as Maven artifacts. It
recreates the `build` directory, downloads the distribution archive and
unpacks it without its `examples`, picks the unpacked distribution
directory, and takes the version from that directory's name. Every
`gradle-*.jar` below `lib` becomes an artifact of the working set. When the
distribution has a `src` directory, each jar whose component directory
`src/<id>` exists gets a sources jar, which is packed afresh from that
directory. A post-processing hook then runs; the fat-jar deployer uses it
to merge all jars into one. The run reports every artifact without
sources. Last, it starts `mvn deploy:deploy-file` once per artifact and
stops after the first run that exits with a non-zero status.

The model follows the source file by file:

- `Deployer` is `Deployer.run` and its helpers. `Run` is a method over a
  mutable `Io.FileSystem`. Its result is tied to the function `RunResult`,
  and lemmas describe what that function deploys.
- `FatJar` is `FatJarArtifactDeployer.postProcess`, with the merge loop
  kept as a loop.
- `LegacyMain` is `Main.main`, the older entry point. Its differences from
  `Deployer` are proved as lemmas: a stricter unzip, a sources packer that
  skips unreadable files, and no hook.
- `ArchiveCodec` holds `zipDirectory`, `addToZipFile`, `unzip` and
  `extractFile`. Each is a method with a buffer loop, specified by a
  function whose laws are in `ArchiveLaws`.
- `Naming` and `Artifacts` hold the string arithmetic and the working set:
  version, component id, sources-jar name, artifact id and the
  `runAtMaven` argument line. They also hold the lib filter, the report
  and the deploy loop.
- `FileTree`, `Io`, `Paths`, `Text` and `Archive` are the small pieces of
  `java.nio.file`, `java.lang.String` and `java.util.zip` the code relies
  on:
  - a file system is a map from paths to directories or files;
  - an archive is a sequence of named entries;
  - `Path.resolve` and `relativize`/`toString` are functions on component
    lists.

Things the program does not decide become parameters:
- the bytes the distribution URL serves;
- `MAVEN_HOME`, the program arguments, `os.name` and the working directory;
- the exit status of each Maven run;
- the order of `Files.walk` and the choice made by `findAny`.

A method returns the walk order it used as a ghost value, and the
functions take it as an argument.

## Model

Paths are relative to the repository root; every file lies in
`src/main/java/consulo/internal/gradle/artifact/deployer/`.

| member | source | states |
|---|---|---|
| Naming.Version | src/main/java/consulo/internal/gradle/artifact/deployer/Deployer.java:46-48 | a directory name holding no "gradle-" is its own version |
| Naming.VersionOf | src/main/java/consulo/internal/gradle/artifact/deployer/Deployer.java:46-48 | the distribution directory "gradle-" + v yields version v when v holds no "gradle-" |
| Naming.JarNameIsGradleJar | src/main/java/consulo/internal/gradle/artifact/deployer/Deployer.java:55-57 | every jar name of the form gradle-c-v.jar passes the lib filter |
| Naming.ComponentIdOf | src/main/java/consulo/internal/gradle/artifact/deployer/Deployer.java:69-70 | removing "gradle-", ".jar" and "-" + version from gradle-c-v.jar gives back c, when those strings occur only where the name puts them |
| Naming.SourcesJarBesideJar | src/main/java/consulo/internal/gradle/artifact/deployer/Deployer.java:69-75 | under the same conditions, the sources jar of gradle-c-v.jar is named gradle-c-v-sources.jar |
| Naming.DeployArtifactIdOf | src/main/java/consulo/internal/gradle/artifact/deployer/Deployer.java:101 | the artifact id of stem-v.jar is stem when "-v.jar" occurs only at the end |
| Naming.DeployArtifactIdOfJar | src/main/java/consulo/internal/gradle/artifact/deployer/Deployer.java:101 | gradle-c-v.jar deploys under the artifact id gradle-c |
| Naming.MavenArgsTokens | src/main/java/consulo/internal/gradle/artifact/deployer/Deployer.java:129-146 | the runAtMaven line is the goal and the flags (groupId, artifactId, version, packaging, repositoryId, url, file, and sources if given) joined by single spaces |
| Naming.SourcesFlagIff | src/main/java/consulo/internal/gradle/artifact/deployer/Main.java:151-168 | the argument list has a -Dsources= argument exactly when a sources jar is given, and then it is the last argument and names that jar |
| Naming.SplitArgsWithoutSpaces | src/main/java/consulo/internal/gradle/artifact/deployer/Deployer.java:111 | splitting the line on spaces gives back the argument list when no value holds a space |
| Naming.SplitArgsBreaksSpacedFile | src/main/java/consulo/internal/gradle/artifact/deployer/Deployer.java:111 | when the jar path holds a space, the split arguments differ from the argument list |
| Naming.MavenHome | src/main/java/consulo/internal/gradle/artifact/deployer/Deployer.java:32-36 | the Maven home is found exactly when MAVEN_HOME is set or an argument is given, and MAVEN_HOME wins |
| Naming.LowerAscii | src/main/java/consulo/internal/gradle/artifact/deployer/Deployer.java:96 | lower-casing keeps the length and maps exactly the letters A to Z to a to z |
| Text.ReplaceTrailing | src/main/java/consulo/internal/gradle/artifact/deployer/Deployer.java:101 | replacing a target that occurs only at the end rewrites exactly that suffix |
| Text.StripLeading | src/main/java/consulo/internal/gradle/artifact/deployer/Deployer.java:48 | removing a prefix that occurs nowhere else leaves the rest of the string |
| Text.StripTrailing | src/main/java/consulo/internal/gradle/artifact/deployer/Deployer.java:70 | removing a suffix that occurs only at the end leaves the stem |
| Text.SplitOnSpaceOfJoin | src/main/java/consulo/internal/gradle/artifact/deployer/Deployer.java:111 | splitting a join of non-empty space-free words on spaces gives back the words |
| Artifacts.WorkingSet.Add | src/main/java/consulo/internal/gradle/artifact/deployer/Deployer.java:58 | the list grows by one artifact for the jar, with no sources jar |
| Artifacts.WorkingSet.SetSources | src/main/java/consulo/internal/gradle/artifact/deployer/Deployer.java:77 | only the i-th artifact's sources jar changes |
| Artifacts.WorkingSet.Clear | src/main/java/consulo/internal/gradle/artifact/deployer/FatJarArtifactDeployer.java:64 | the list becomes empty |
| Artifacts.GradleJarsMembers | src/main/java/consulo/internal/gradle/artifact/deployer/Deployer.java:53-60 | a path is selected exactly when the walk visits it and its file name starts with "gradle-" and ends with ".jar" |
| Artifacts.GradleJarsSnoc | src/main/java/consulo/internal/gradle/artifact/deployer/Deployer.java:53-60 | the selection keeps walk order |
| Artifacts.GradleJarsOfWalk | src/main/java/consulo/internal/gradle/artifact/deployer/Deployer.java:53-60 | for a complete walk of a directory, a path is selected exactly when it lies below the directory and its file name starts with "gradle-" and ends with ".jar" |
| Artifacts.AddGradleJars | src/main/java/consulo/internal/gradle/artifact/deployer/Deployer.java:53-60 | the list grows by the selected jars of the walk, in walk order, none with sources |
| Artifacts.CollectJars | src/main/java/consulo/internal/gradle/artifact/deployer/Deployer.java:50-60 | it fails exactly when lib is missing; otherwise the list grows by the selected jars of a complete walk of lib, in walk order, none with sources |
| Artifacts.WithoutSourcesMembers | src/main/java/consulo/internal/gradle/artifact/deployer/Deployer.java:88-94 | a jar is reported exactly when some artifact of it has no sources jar |
| Artifacts.AllAttachedNoReport | src/main/java/consulo/internal/gradle/artifact/deployer/Deployer.java:88-94 | nothing is reported when every artifact has sources |
| Artifacts.ReportMissing | src/main/java/consulo/internal/gradle/artifact/deployer/Deployer.java:88-94 | one "missing source" report per artifact without a sources jar, in list order |
| Artifacts.RunsMadeStops | src/main/java/consulo/internal/gradle/artifact/deployer/Deployer.java:117-121 | the number of runs counts up to and including the first non-zero exit status, or all of them |
| Artifacts.DeployAll | src/main/java/consulo/internal/gradle/artifact/deployer/Deployer.java:99-122 | the i-th process is the mvn command with the i-th artifact's arguments; the loop stops right after the first non-zero exit status |
| FileTree.CreateDirectory | src/main/java/consulo/internal/gradle/artifact/deployer/Deployer.java:168 | succeeds exactly when nothing exists at the path and its parent is a directory, and then adds only that directory |
| FileTree.CreateDirectories | src/main/java/consulo/internal/gradle/artifact/deployer/Deployer.java:249 | succeeds when no regular file lies on the path; then the path is a directory, every old node stays, and every new node is a directory on the path |
| FileTree.WriteFile | src/main/java/consulo/internal/gradle/artifact/deployer/Deployer.java:251 | succeeds exactly when the path is not a directory and its parent is one, and then sets only that file |
| FileTree.ReadFile | src/main/java/consulo/internal/gradle/artifact/deployer/Deployer.java:190 | succeeds exactly on a readable regular file and yields its bytes |
| FileTree.DeleteRecursively | src/main/java/consulo/internal/gradle/artifact/deployer/Deployer.java:154 | nothing at or below the path remains and everything else is unchanged |
| FileTree.DeleteIfExists | src/main/java/consulo/internal/gradle/artifact/deployer/Deployer.java:79 | afterwards nothing is at the path and every other node is unchanged |
| FileTree.CopyIn | src/main/java/consulo/internal/gradle/artifact/deployer/Deployer.java:165 | succeeds only when the target does not exist, and then stores the bytes there |
| FileTree.RecreatedEmpty | src/main/java/consulo/internal/gradle/artifact/deployer/FatJarArtifactDeployer.java:26-38 | a deleted and recreated directory exists, is empty and leaves everything outside it unchanged; it succeeds whenever the parent is a directory |
| Io.FileSystem.Exists | src/main/java/consulo/internal/gradle/artifact/deployer/Deployer.java:63 | Files.exists: the root or a node at the path |
| Io.FileSystem.IsDirectory | src/main/java/consulo/internal/gradle/artifact/deployer/Deployer.java:181 | Files.isDirectory: the root or a directory node |
| Io.FileSystem.CreateDirectory | src/main/java/consulo/internal/gradle/artifact/deployer/Deployer.java:157 | the file system becomes what FileTree.CreateDirectory gives, or stays unchanged on failure |
| Io.FileSystem.CreateDirectories | src/main/java/consulo/internal/gradle/artifact/deployer/Deployer.java:249 | as FileTree.CreateDirectories, unchanged on failure |
| Io.FileSystem.DeleteRecursively | src/main/java/consulo/internal/gradle/artifact/deployer/Deployer.java:154 | fails on a missing path; otherwise removes the path and everything below it |
| Io.FileSystem.DeleteIfExists | src/main/java/consulo/internal/gradle/artifact/deployer/Deployer.java:79 | as FileTree.DeleteIfExists, unchanged on failure |
| Io.FileSystem.Recreate | src/main/java/consulo/internal/gradle/artifact/deployer/Deployer.java:152-157 | deletes the directory when it exists, then creates it; the outcome and the new state are those of FileTree.Recreated |
| Io.FileSystem.Copy | src/main/java/consulo/internal/gradle/artifact/deployer/Deployer.java:165 | as FileTree.CopyIn, unchanged on failure |
| Io.FileSystem.NewOutputStream | src/main/java/consulo/internal/gradle/artifact/deployer/Deployer.java:251 | creates or truncates the file, unchanged on failure |
| Io.FileSystem.Store | src/main/java/consulo/internal/gradle/artifact/deployer/Deployer.java:251-259 | closing the stream leaves exactly the written bytes in the file |
| Io.FileSystem.NewInputStream | src/main/java/consulo/internal/gradle/artifact/deployer/Deployer.java:190 | opens a stream at the start of the file's bytes exactly when the file is readable |
| Io.FileSystem.OpenZip | src/main/java/consulo/internal/gradle/artifact/deployer/Deployer.java:219 | opens a zip stream before the first entry exactly when the file is a readable regular file whose bytes decode as an archive; other bytes fail with MalformedArchive |
| Io.FileSystem.Walk | src/main/java/consulo/internal/gradle/artifact/deployer/Deployer.java:179 | fails on a missing root; otherwise lists the root and everything below it, each once |
| Io.ByteInput.Read | src/main/java/consulo/internal/gradle/artifact/deployer/Deployer.java:209 | -1 at the end, otherwise 1 to buffer-length next bytes of the stream, placed at the front of the buffer |
| Io.ZipIn.GetNextEntry | src/main/java/consulo/internal/gradle/artifact/deployer/Deployer.java:221 | the next entry's name in archive order, or none after the last |
| Io.ZipIn.Read | src/main/java/consulo/internal/gradle/artifact/deployer/Deployer.java:255 | -1 at the end of the current entry, otherwise its next bytes |
| Io.ZipOut.PutNextEntry | src/main/java/consulo/internal/gradle/artifact/deployer/Deployer.java:204-205 | a name already written is refused as a duplicate entry; otherwise an empty entry is opened |
| Io.ZipOut.Write | src/main/java/consulo/internal/gradle/artifact/deployer/Deployer.java:211 | the bytes are appended to the open entry and nothing else changes |
| Archive.DecodeEncode | src/main/java/consulo/internal/gradle/artifact/deployer/Deployer.java:175-200 | an archive written to a file reads back as the same entries |
| ArchiveCodec.AddToZipFile | src/main/java/consulo/internal/gradle/artifact/deployer/Deployer.java:202-215 | the archive gains one entry holding the rest of the stream, or the entry is refused as a duplicate and nothing changes |
| ArchiveCodec.CopyEntry | src/main/java/consulo/internal/gradle/artifact/deployer/Deployer.java:253-258 | the copy loop hands over exactly the current entry's bytes |
| ArchiveCodec.ExtractFile | src/main/java/consulo/internal/gradle/artifact/deployer/Deployer.java:247-260 | creates the parent directories, then writes the entry's bytes at the path |
| ArchiveCodec.WriteEntry | src/main/java/consulo/internal/gradle/artifact/deployer/Deployer.java:232-240 | a file entry is extracted at its path; a directory entry creates a missing directory and passes over an existing one |
| ArchiveCodec.UnzipEntry | src/main/java/consulo/internal/gradle/artifact/deployer/Deployer.java:224-242 | an entry whose name the filter rejects changes nothing; any other is written as WriteEntry does at its resolved path |
| ArchiveCodec.Unzip | src/main/java/consulo/internal/gradle/artifact/deployer/Deployer.java:217-245 | processes the entries in order: rejected ones are skipped, files are extracted, missing directories are created; the first failure ends it |
| ArchiveCodec.ZipDirectory | src/main/java/consulo/internal/gradle/artifact/deployer/Deployer.java:175-200 | creates the jar, then adds every regular file the walk visits under its name relative to the directory; any failure ends it; whenever the jar can be created and the directory exists, the walk it reports is a complete walk of the directory in the file system after the jar was created |
| ArchiveLaws.UnzipAcceptedOnly | src/main/java/consulo/internal/gradle/artifact/deployer/Deployer.java:225-230 | unzipping with a filter equals unzipping only the accepted entries |
| ArchiveLaws.StepEffect | src/main/java/consulo/internal/gradle/artifact/deployer/Deployer.java:232-240 | one entry changes only the paths on its way; a path is a file afterwards exactly when it was one or the entry is a file written there, and then it holds the entry's bytes |
| ArchiveLaws.UnzippedFrame | src/main/java/consulo/internal/gradle/artifact/deployer/Deployer.java:217-245 | a path no accepted entry leads to is unchanged, when no accepted name has a "." or ".." component |
| ArchiveLaws.UnzippedKeeps | src/main/java/consulo/internal/gradle/artifact/deployer/Deployer.java:217-245 | a node no entry writes as a file is kept |
| ArchiveLaws.UnzippedFiles | src/main/java/consulo/internal/gradle/artifact/deployer/Deployer.java:217-245 | afterwards a path is a regular file exactly when it was one or some accepted file entry resolves to it |
| ArchiveLaws.UnzippedLastWriter | src/main/java/consulo/internal/gradle/artifact/deployer/Deployer.java:217-245 | a file holds the bytes of the last entry that writes it |
| ArchiveLaws.UnzippedWellFormed | src/main/java/consulo/internal/gradle/artifact/deployer/Deployer.java:217-245 | unzipping keeps every node below a directory |
| ArchiveLaws.FileEntriesMembers | src/main/java/consulo/internal/gradle/artifact/deployer/Deployer.java:179-198 | the packed entries are exactly the entries of the regular files the walk visits |
| ArchiveLaws.PackedEntries | src/main/java/consulo/internal/gradle/artifact/deployer/Deployer.java:179-198 | a successful packing appends one entry per regular file in walk order; every such file was readable and no name repeats |
| ArchiveLaws.PackedSucceeds | src/main/java/consulo/internal/gradle/artifact/deployer/Deployer.java:190-197 | packing succeeds when every visited path exists, every file is readable, and relative names are new and distinct |
| ArchiveLaws.ZipDirectoryArchive | src/main/java/consulo/internal/gradle/artifact/deployer/Deployer.java:175-200 | the jar reads back as one entry per regular file of the directory, in walk order with distinct names, and nothing else changes |
| ArchiveLaws.ZipDirectoryEntries | src/main/java/consulo/internal/gradle/artifact/deployer/Deployer.java:175-200 | an entry is in the jar exactly when it is the entry of a regular file below the directory, whatever the walk order |
| ArchiveLaws.UnzipTree | src/main/java/consulo/internal/gradle/artifact/deployer/Deployer.java:217-245 | unzipping entries that each name a file of a tree of plain relative paths into a directory with nothing below it succeeds, and changes nothing outside that directory |
| ArchiveLaws.ZipThenUnzip | src/main/java/consulo/internal/gradle/artifact/deployer/Deployer.java:175-245 | unzipping the jar zipDirectory just wrote into an empty directory succeeds and changes nothing outside that directory |
| ArchiveLaws.ZipThenUnzipFiles | src/main/java/consulo/internal/gradle/artifact/deployer/Deployer.java:175-245 | after that unzip, a path strictly below the target is a regular file exactly when its relative part is the relative path of a regular file below the packed directory |
| ArchiveLaws.ZipThenUnzipData | src/main/java/consulo/internal/gradle/artifact/deployer/Deployer.java:175-245 | after that unzip, every regular file below the packed directory appears at the same relative path below the target with the same bytes |
| Paths.ResolvePlain | src/main/java/consulo/internal/gradle/artifact/deployer/Deployer.java:75 | resolving a plain name appends it as one component |
| Paths.EntryNameComponents | src/main/java/consulo/internal/gradle/artifact/deployer/Deployer.java:186-188 | the entry name of a plain relative path splits back into that path |
| Paths.EntryNameInjective | src/main/java/consulo/internal/gradle/artifact/deployer/Deployer.java:186-188 | different plain relative paths get different entry names |
| Paths.EntryNameResolves | src/main/java/consulo/internal/gradle/artifact/deployer/Deployer.java:186-188 | an entry name made by zipDirectory is relative, not a directory name, and resolves back to its path |
| Paths.CanonicalNameResolves | src/main/java/consulo/internal/gradle/artifact/deployer/Deployer.java:232 | an entry name made of non-empty components, none of them "." or ".." and without '\', resolves below the directory and is packed again under the same name |
| Deployer.PreparedFresh | src/main/java/consulo/internal/gradle/artifact/deployer/Deployer.java:152-168 | before extraction the build directory holds exactly the downloaded archive and an empty extract directory |
| Deployer.ExtractionSkipsExamples | src/main/java/consulo/internal/gradle/artifact/deployer/Deployer.java:172 | the extraction acts as if the entries whose names contain "examples" were absent |
| Deployer.CleanAndDownload | src/main/java/consulo/internal/gradle/artifact/deployer/Deployer.java:148-173 | outcome and new state are those of CleanAndDownloadResult: recreate, store the download, create extract, unzip without examples |
| Deployer.FindDistribution | src/main/java/consulo/internal/gradle/artifact/deployer/Deployer.java:44 | yields some path strictly below extract, or fails when extract is missing or empty |
| Deployer.AttachStepFrame | src/main/java/consulo/internal/gradle/artifact/deployer/Deployer.java:72-82 | one attachment changes the file system only at the sources jar and keeps the artifact's jar |
| Deployer.AttachStepSources | src/main/java/consulo/internal/gradle/artifact/deployer/Deployer.java:72-77 | the artifact gets src/gradle-id-version-sources.jar exactly when src/id exists |
| Deployer.AttachedFrame | src/main/java/consulo/internal/gradle/artifact/deployer/Deployer.java:67-83 | the loop changes the file system only at the sources jars |
| Deployer.AttachedKeepsJars | src/main/java/consulo/internal/gradle/artifact/deployer/Deployer.java:67-83 | the loop keeps the number of artifacts and every artifact's jar |
| Deployer.AttachedAt | src/main/java/consulo/internal/gradle/artifact/deployer/Deployer.java:67-83 | each artifact leaves the loop as the file system at the start of the loop determines |
| Deployer.AttachedSources | src/main/java/consulo/internal/gradle/artifact/deployer/Deployer.java:62-84 | each artifact gets its sources jar exactly when its src directory exists at the start, when no sources directory is also a sources jar |
| Deployer.AttachedFailsOnward | src/main/java/consulo/internal/gradle/artifact/deployer/Deployer.java:67-83 | once an attachment fails, the loop fails with that error |
| Deployer.AttachedNext | src/main/java/consulo/internal/gradle/artifact/deployer/Deployer.java:67-83 | one more successful step extends the loop by one artifact; a failing step makes the whole loop, and every longer prefix of it, fail with its error |
| Deployer.AttachOne | src/main/java/consulo/internal/gradle/artifact/deployer/Deployer.java:69-82 | one turn of the loop for a given sources directory and sources jar: only the i-th artifact and the file system change, as AttachStep gives, and the walk it reports is a complete walk of the sources directory once the old sources jar is deleted |
| Deployer.AttachNext | src/main/java/consulo/internal/gradle/artifact/deployer/Deployer.java:67-83 | after the i-th turn the first i + 1 artifacts and the file system are those of the loop so far, the rest of the list is untouched, a failure is the loop's failure, and every walk reported so far is a complete walk of its sources directory at the turn that took it |
| Deployer.AttachSources | src/main/java/consulo/internal/gradle/artifact/deployer/Deployer.java:67-83 | the loop's outcome, file system and list are those of Attached, and each reported walk is a complete walk of its sources directory at the turn that took it, for every turn the loop reaches |
| Deployer.AttachIfSources | src/main/java/consulo/internal/gradle/artifact/deployer/Deployer.java:62-84 | the loop runs only when src exists, and then every walk it reports is legitimate for the turn that took it |
| Deployer.PostProcess | src/main/java/consulo/internal/gradle/artifact/deployer/Deployer.java:125-127 | the independent deployer's hook changes nothing; the fat-jar deployer's is FatJar.PostProcess, with walks legitimate for each packing it reaches |
| Deployer.Publish | src/main/java/consulo/internal/gradle/artifact/deployer/Deployer.java:88-122 | the trace is one missing-source report per artifact without sources, in list order, then the Maven runs up to and including the first one with a non-zero exit status |
| Deployer.BuildList | src/main/java/consulo/internal/gradle/artifact/deployer/Deployer.java:50-86 | the deployed list and file system are those of Listed for a complete walk of lib, and every walk reported by the attachment loop and the hook is a complete walk for the step that took it, on success and on failure |
| Deployer.Run | src/main/java/consulo/internal/gradle/artifact/deployer/Deployer.java:30-123 | without a Maven home it fails and changes nothing; otherwise outcome and state are RunResult's, the chosen distribution directory lies strictly below extract and every walk is complete for the step that took it, on every run that gets that far, and a successful run reports the artifacts without sources, then starts Maven per artifact until the first failure |
| Deployer.RunDeploys | src/main/java/consulo/internal/gradle/artifact/deployer/Deployer.java:50-86 | the independent deployer deploys the attachment loop's list; the fat-jar deployer deploys only the merged jar with the merged sources |
| Deployer.IndependentDeploysLibJars | src/main/java/consulo/internal/gradle/artifact/deployer/Deployer.java:50-60 | the independent deployer deploys exactly the gradle-*.jar files below lib, each once, in walk order |
| Deployer.IndependentAttachesSources | src/main/java/consulo/internal/gradle/artifact/deployer/Deployer.java:62-84 | with src present each jar is deployed with its sources jar exactly when src/id exists; without src none has one |
| Deployer.FatJarDeploysMerged | src/main/java/consulo/internal/gradle/artifact/deployer/FatJarArtifactDeployer.java:58-69 | the fat-jar run deploys one artifact with sources, so nothing is reported, and its artifact id is gradle-all |
| Deployer.FatJarArtifactId | src/main/java/consulo/internal/gradle/artifact/deployer/FatJarArtifactDeployer.java:58 | the merged jar target/gradle-all-v.jar deploys under the artifact id gradle-all by the rule of Deployer.java line 101 |
| FatJar.Merge | src/main/java/consulo/internal/gradle/artifact/deployer/FatJarArtifactDeployer.java:40-56 | unpacks each jar without org/slf4j/ into gradle-all and its sources jar, if any, into gradle-all-sources, in list order |
| FatJar.PostProcess | src/main/java/consulo/internal/gradle/artifact/deployer/FatJarArtifactDeployer.java:21-70 | on success the working set is exactly the merged jar with the merged sources jar, and the file system is PostProcessResult's; on failure the list is untouched; each reported walk is a complete walk of its merge directory whenever that packing is reached |
| FatJarLaws.MergeStepEffect | src/main/java/consulo/internal/gradle/artifact/deployer/FatJarArtifactDeployer.java:42-55 | one turn leaves paths outside both directories alone; below each directory a path becomes a file exactly when it was one or the jar (or sources jar) writes it |
| FatJarLaws.MergedEffect | src/main/java/consulo/internal/gradle/artifact/deployer/FatJarArtifactDeployer.java:40-56 | after the loop a path below gradle-all is a file exactly when it was one or some jar writes it outside org/slf4j/; likewise below gradle-all-sources for attached sources jars only |
| FatJarLaws.MergedLastWriter | src/main/java/consulo/internal/gradle/artifact/deployer/FatJarArtifactDeployer.java:40-56 | a merged file holds the bytes of the last jar in list order that writes it |
| FatJarLaws.MergeDirsFresh | src/main/java/consulo/internal/gradle/artifact/deployer/FatJarArtifactDeployer.java:23-38 | both merge directories are recreated empty whenever the target is a directory, and nothing else changes |
| FatJarLaws.MergedStateFiles | src/main/java/consulo/internal/gradle/artifact/deployer/FatJarArtifactDeployer.java:23-56 | after reset and merge, the files below each directory are exactly those the jars write there; nothing from an earlier run is left |
| FatJarLaws.FatJarPaths | src/main/java/consulo/internal/gradle/artifact/deployer/FatJarArtifactDeployer.java:58-59 | the merged jars are target/gradle-all-v.jar and target/gradle-all-v-sources.jar, distinct and outside both merge directories |
| FatJarLaws.PackedNames | src/main/java/consulo/internal/gradle/artifact/deployer/Deployer.java:175-200 | a packed jar's names are distinct and are exactly the relative names of the regular files below the directory |
| FatJarLaws.FatJarNames | src/main/java/consulo/internal/gradle/artifact/deployer/FatJarArtifactDeployer.java:40-61 | the merged jar names exactly the files the binary jars wrote below gradle-all, each once |
| FatJarLaws.FatSourcesJarNames | src/main/java/consulo/internal/gradle/artifact/deployer/FatJarArtifactDeployer.java:52-62 | the merged sources jar names exactly the files the attached sources jars wrote, each once |
| FatJarLaws.FatJarEntryNames | src/main/java/consulo/internal/gradle/artifact/deployer/FatJarArtifactDeployer.java:40-61 | with canonical entry names, the merged jar's names are exactly the file-entry names outside org/slf4j/ of the working set's jars, without duplicates |
| FatJarLaws.FatSourcesJarEntryNames | src/main/java/consulo/internal/gradle/artifact/deployer/FatJarArtifactDeployer.java:52-62 | with canonical entry names, the merged sources jar's names are exactly the file-entry names of the attached sources jars, without duplicates |
| LegacyMain.UnzipStepRefined | src/main/java/consulo/internal/gradle/artifact/deployer/Main.java:223-238 | where Main's unzip step succeeds, Deployer's step with the examples filter does the same |
| LegacyMain.UnzippedRefined | src/main/java/consulo/internal/gradle/artifact/deployer/Main.java:215-243 | where Main's unzip succeeds, Deployer's leaves the same file system |
| LegacyMain.ExistingDirectoryRejected | src/main/java/consulo/internal/gradle/artifact/deployer/Main.java:235-238 | a directory entry for an existing path stops Main's unzip, while Deployer's passes over it |
| LegacyMain.MissingParentRejected | src/main/java/consulo/internal/gradle/artifact/deployer/Main.java:245-256 | a file entry with a missing parent stops Main's unzip, while Deployer's creates the parents |
| LegacyMain.ExtractFile | src/main/java/consulo/internal/gradle/artifact/deployer/Main.java:245-256 | writes the entry's bytes at the path without creating parents |
| LegacyMain.UnzipEntry | src/main/java/consulo/internal/gradle/artifact/deployer/Main.java:222-240 | an entry whose name contains "examples" changes nothing; a file entry is extracted; a directory entry is created and fails when the path exists |
| LegacyMain.Unzip | src/main/java/consulo/internal/gradle/artifact/deployer/Main.java:215-243 | outcome and new state are those of Main's UnzipFile |
| LegacyMain.LenientAgreesWithStrict | src/main/java/consulo/internal/gradle/artifact/deployer/Main.java:87-109 | where Deployer's packer succeeds, Main's packs the same entries |
| LegacyMain.LenientSkipsFailure | src/main/java/consulo/internal/gradle/artifact/deployer/Main.java:104-107 | a file Deployer's packer fails on is passed over: it is unreadable or its name is taken |
| LegacyMain.LenientPackedEntries | src/main/java/consulo/internal/gradle/artifact/deployer/Main.java:87-109 | the lenient packer only appends, only entries of readable files, never repeats a name, and names every readable file |
| LegacyMain.ZipSources | src/main/java/consulo/internal/gradle/artifact/deployer/Main.java:87-109 | outcome and new state are those of PackSources, and the walk it reports is a complete walk of the directory once the jar is created |
| LegacyMain.AttachStepAgrees | src/main/java/consulo/internal/gradle/artifact/deployer/Main.java:75-110 | where Deployer's attachment step succeeds, Main's gives the same result |
| LegacyMain.AttachedAgrees | src/main/java/consulo/internal/gradle/artifact/deployer/Main.java:73-111 | where Deployer's loop succeeds, Main's gives the same file system and list |
| LegacyMain.AttachedFailsOnward | src/main/java/consulo/internal/gradle/artifact/deployer/Main.java:73-111 | once an attachment fails, Main's loop fails with that error |
| LegacyMain.AttachOne | src/main/java/consulo/internal/gradle/artifact/deployer/Main.java:75-110 | one turn of Main's loop changes only the i-th artifact and the file system, as its AttachStep gives, and its walk is a complete walk of the sources directory once the old sources jar is deleted |
| LegacyMain.AttachNext | src/main/java/consulo/internal/gradle/artifact/deployer/Main.java:73-111 | after the i-th turn the first i + 1 artifacts and the file system are those of Main's loop so far, the rest is untouched, a failure is the loop's failure, and every walk reported so far is complete for the turn that took it |
| LegacyMain.AttachedNext | src/main/java/consulo/internal/gradle/artifact/deployer/Main.java:73-111 | one more successful step extends Main's loop by one artifact; a failing step makes the whole loop, and every longer prefix of it, fail with its error |
| LegacyMain.AttachSources | src/main/java/consulo/internal/gradle/artifact/deployer/Main.java:73-111 | the loop's outcome, file system and list are those of Main's Attached, and each reported walk is complete for every turn the loop reaches |
| LegacyMain.AttachedKeepsJars | src/main/java/consulo/internal/gradle/artifact/deployer/Main.java:73-111 | Main's loop keeps every artifact's jar in place |
| LegacyMain.CleanAndDownload | src/main/java/consulo/internal/gradle/artifact/deployer/Main.java:170-198 | recreate, store the download as gradle-distribuition.zip, create extract, Main's unzip |
| LegacyMain.ExtractionRefined | src/main/java/consulo/internal/gradle/artifact/deployer/Main.java:197 | where Main's extraction succeeds, it leaves what Deployer's would |
| LegacyMain.BuildList | src/main/java/consulo/internal/gradle/artifact/deployer/Main.java:56-112 | the lib jars with sources attached when src exists; no hook; every reported walk is complete for the step that took it, on success and on failure |
| LegacyMain.RunMain | src/main/java/consulo/internal/gradle/artifact/deployer/Main.java:36-149 | as Deployer.Run without the hook: reports, then Maven runs until the first failure; the chosen distribution directory lies strictly below extract and every walk is complete for the step that took it, on every run that gets that far |
| LegacyMain.DeploysLibJars | src/main/java/consulo/internal/gradle/artifact/deployer/Main.java:56-66 | Main deploys exactly the gradle-*.jar files below lib, each once, in walk order |
| LegacyMain.AttachesLikeDeployer | src/main/java/consulo/internal/gradle/artifact/deployer/Main.java:68-112 | where Deployer's loop would succeed, Main attaches exactly the same sources jars |

## Left out

- Networking: the download from the distribution URL is the `download` parameter. The URL constants are not part of this model; `Gradle.java` is not part of this model either.
- Processes: starting `mvn` is the `exitStatus` oracle. The failure to start a process is not modelled.
- Environment: `MAVEN_HOME`, `os.name`, the program arguments and the working directory are parameters.
- Console output: the progress lines are not modelled. Only the "Missing source artifact" reports and the process starts appear, as the run's `trace`.
- Zip format: `Archive.Encode`/`Decode` are a length-prefixed stand-in with a proved round trip. Compression, CRCs, and the UTF-8 name encoding are left out. An entry is a directory when its name ends with '/', as `java.util.zip` decides.
- Streams: each stream is read whole when it is opened. Buffered output and the closing of streams after an exception are not modelled.
- Walk order and `findAny`: their choice is a parameter of the functions and a ghost result of the methods. The model does not describe which choice a real file system makes.
- Failure states: several methods change the file system in more than one step. When a later step fails, they state the outcome but not the file system. These methods are:
  - `Io.FileSystem.Recreate`;
  - `ArchiveCodec.ZipDirectory`, `ArchiveCodec.ExtractFile`, `ArchiveCodec.WriteEntry`, `ArchiveCodec.UnzipEntry` and `ArchiveCodec.Unzip`;
  - `Deployer.CleanAndDownload`, `Deployer.AttachOne`, `Deployer.AttachNext`, `Deployer.AttachSources`, `Deployer.AttachIfSources`, `Deployer.PostProcess`, `Deployer.BuildList` and `Deployer.Run`;
  - `FatJar.Merge` and `FatJar.PostProcess`;
  - `LegacyMain.ExtractFile`, `LegacyMain.UnzipEntry`, `LegacyMain.Unzip`, `LegacyMain.ZipSources`, `LegacyMain.CleanAndDownload`, `LegacyMain.AttachOne`, `LegacyMain.AttachNext`, `LegacyMain.AttachSources`, `LegacyMain.BuildList` and `LegacyMain.RunMain`.

  The other `Io.FileSystem` methods leave the file system unchanged on failure.
- FileTree.WriteFile: an overwritten file becomes readable. Java keeps the permissions of the file it overwrites. The model does not track permissions across a rewrite.
- `MoreFiles.deleteRecursively`: the `ALLOW_INSECURE` option and symbolic links are not modelled. A file system here has no links.
- `MavenArtifact` objects are values in a sequence. The code never shares one between lists, so aliasing is not modelled.
- `IndependentArtifactDeployer.java` adds no code; it is the `Independent` strategy, whose hook is the empty `Deployer.postProcess`.
- `Main.addToZipFile` and `Main.runAtMaven` are the same code as in `Deployer.java`. The model uses `ArchiveCodec.AddToZipFile` and `Naming.MavenArgs` for both.
- Naming.LowerAscii: only ASCII letters are lowered. `toLowerCase(Locale.US)` also lowers other letters, but the result is only searched for "windows".
- Naming.ComponentIdOf, Naming.SourcesJarBesideJar, Naming.DeployArtifactIdOf: each holds only when the removed strings occur nowhere else in the name. `replace` removes every occurrence, so other names give other ids.
- Deployer.AttachedSources, Deployer.IndependentAttachesSources, LegacyMain.AttachesLikeDeployer: each assumes no component's sources directory is also another component's sources jar.
- FatJarLaws.MergeStepEffect, FatJarLaws.MergedEffect, FatJarLaws.MergedLastWriter, FatJarLaws.MergedStateFiles, FatJarLaws.FatJarNames, FatJarLaws.FatSourcesJarNames, FatJarLaws.FatJarEntryNames, FatJarLaws.FatSourcesJarEntryNames: these assume the following, where it applies:
  - the version holds no '/';
  - the input jars lie outside both merge directories;
  - their entry names are relative: they do not start with '/' and have no "." or ".." component.

  The `EntryNames` lemmas further assume canonical entry names: non-empty components and no '\'.
- ArchiveLaws.UnzippedFrame, Paths.CanonicalNameResolves: both assume names without a "." or ".." component. The file system here does not resolve those two. An entry name holding one lands at a literal component of that name, where the operating system would stay in or leave the directory.
- ArchiveLaws.ZipThenUnzip, ArchiveLaws.ZipThenUnzipFiles, ArchiveLaws.ZipThenUnzipData: these assume that every file below the packed directory has a relative path of plain names, without '\', "." or "..". They also assume the packed directory is not itself a regular file.
- Deployer.FatJarDeploysMerged: the artifact id is stated only for versions whose "-" + version + ".jar" occurs once, at the end of the jar name.
- Artifacts.DeployAll, Deployer.Publish, Deployer.Run, LegacyMain.RunMain: the process arguments are the corrected argument list, one argument per flag. The code as written splits the runAtMaven line on spaces (`Deployer.java:111`, `Main.java:137`), which differs when a path or the version holds a space. The as-written split is the finding below.
- Io.FileSystem.OpenZip, Io.ReadArchive: bytes that do not decode as an archive fail with `MalformedArchive` before the first entry. `ZipInputStream` opens any stream, and `getNextEntry` returns null when the stream does not start with an entry header, so such a stream has no entries. As a result, ArchiveCodec.Unzip, Deployer.CleanAndDownload, LegacyMain.CleanAndDownload and FatJar.Merge stop with that error on such a file. The code as written would extract nothing from it. For a download, it then fails at `findAny().get()` with no distribution directory. In the fat merge, it passes over the jar.
- Windows paths: the file system is a '/'-rooted, '/'-separated tree, and `Paths.Render` always gives such a path. Windows path syntax is not modelled: drive letters, and '\' in `toAbsolutePath` and `relativize`. `os.name` only chooses the launcher name in `Naming.CommandFile`.

## Findings

| source | as written | input that shows it | evidently intended | confidence | as-written member | corrected member |
|---|---|---|---|---|---|---|
| src/main/java/consulo/internal/gradle/artifact/deployer/Deployer.java:111 | the runAtMaven line is split on every space to get the process arguments, so a jar or sources path holding a space is cut into several arguments | a working directory such as `/home/a b`, which makes `-Dfile=/home/a b/build/...` two arguments | one process argument per flag, as the line was built | not executed | Naming.SplitArgsBreaksSpacedFile | Naming.SplitArgsWithoutSpaces |

`Main.java:137` has the same split. `Artifacts.Invocation` builds the argument
list from `Naming.MavenArgv`, one argument per flag. `Naming.MavenArgsTokens`
proves that joining that list with spaces gives the runAtMaven line.
`Naming.SplitArgsWithoutSpaces` proves that the split agrees with that
list when no value holds a space.
