# m2e-wtp `ProjectUtils`, modelled in Dafny

This project models the logic inside `ProjectUtils` of the m2e-wtp plugin,
the helper class that the plugin uses to keep Maven projects and the Web
Tools Platform's virtual components in step. The Eclipse workspace calls it
makes are replaced by plain state:

- `getRelativePath` is a function over strings. The project's base directory
  is passed in as a string.
- `getM2eclipseWtpFolder` and `getGeneratedWebResourcesFolder` build
  project-relative paths, given as sequences of segments (`Paths.Path`).
  `new Path(String)` becomes `Paths.Segments`. The folder-name constants of
  the plugin are parameters.
- `removeNature` is a method over the project's nature ids. It fills a fresh
  array with the source's two cursors, `i` and `j`. A slot that the loop
  never writes holds `None`, which stands for Java's `null`.
- `refreshHierarchy` is a method over the workspace root location, the base
  directory and the list of workspace projects. Each project is a
  `ProjectInfo` holding its location (`None` for null) and whether it is
  accessible. Each `refreshLocal` call is recorded in a ghost log of project
  indices. The spec function `Walk` describes the whole walk.
- `createFolder` is a method of a `Workspace` object. Its state is the set of
  existing folder paths and a ghost log of `IFolder.create` calls.
- `getWebResourceFile` is a method with a loop over the underlying folders.
  Its inputs are the set of existing file paths and an optional component.

Modules: `Wrappers` (Option), `Paths` (segment paths) and `ProjectUtils`
(the class itself).

## Model

| member | source | states |
|---|---|---|
| `ProjectUtils.ReplaceBackslashes` | org.eclipse.m2e.wtp/src/org/eclipse/m2e/wtp/ProjectUtils.java:63 | the result has the same length as the input; each backslash becomes '/' and every other character is kept; no backslash remains |
| `ProjectUtils.GetRelativePath` | org.eclipse.m2e.wtp/src/org/eclipse/m2e/wtp/ProjectUtils.java:51-64 | the result is exactly "." when the path equals the base directory; under a plain string prefix, it is the path minus its first `|basedir|+1` characters, with '\' replaced; otherwise it is the whole path, same length, with '\' replaced; it never contains a backslash |
| `ProjectUtils.RelativePathResolves` | org.eclipse.m2e.wtp/src/org/eclipse/m2e/wtp/ProjectUtils.java:58-59 | for a forward-slash path `basedir + "/" + rel`, the result is `rel`, so base directory + "/" + result gives the absolute path back |
| `ProjectUtils.OutsidePathUnchanged` | org.eclipse.m2e.wtp/src/org/eclipse/m2e/wtp/ProjectUtils.java:60-63 | a forward-slash path that does not start with the base directory is returned unchanged |
| `ProjectUtils.SiblingIsCut` | org.eclipse.m2e.wtp/src/org/eclipse/m2e/wtp/ProjectUtils.java:58-59 | the prefix test is not segment-aware: for every base directory, every character `c` (separator or not) and every forward-slash `s`, the path `basedir + c + s` gives `s` |
| `ProjectUtils.SiblingIsCutExamples` | org.eclipse.m2e.wtp/src/org/eclipse/m2e/wtp/ProjectUtils.java:58-59 | instances of the above: "/a/bc" against "/a/b" gives "" and "/a/bcd" gives "d" |
| `ProjectUtils.GetM2eclipseWtpFolder` | org.eclipse.m2e.wtp/src/org/eclipse/m2e/wtp/ProjectUtils.java:70-74 | the folder path ends in the m2e-wtp segment and every segment is well formed; a build directory equal to the base directory gives just that one segment |
| `ProjectUtils.M2eclipseWtpFolderBelowBasedir` | org.eclipse.m2e.wtp/src/org/eclipse/m2e/wtp/ProjectUtils.java:70-74 | a build directory `basedir + "/" + rel` gives the segments of `rel` followed by the m2e-wtp segment |
| `ProjectUtils.M2eclipseWtpFolderOfSegments` | org.eclipse.m2e.wtp/src/org/eclipse/m2e/wtp/ProjectUtils.java:70-74 | a build directory `basedir + "/" + s`, where `s` is well-formed segments joined by '/', gives exactly those segments followed by the m2e-wtp segment |
| `ProjectUtils.GetGeneratedWebResourcesFolder` | org.eclipse.m2e.wtp/src/org/eclipse/m2e/wtp/ProjectUtils.java:79-82 | the folder path ends in [m2e-wtp, web-resources], and its parent is the m2e-wtp folder |
| `ProjectUtils.WithoutMultiset` | org.eclipse.m2e.wtp/src/org/eclipse/m2e/wtp/ProjectUtils.java:125-129 | the copy loop keeps every other id with its multiplicity and drops every occurrence of the nature; the kept list is shorter by the number of occurrences |
| `ProjectUtils.WithoutSingle` | org.eclipse.m2e.wtp/src/org/eclipse/m2e/wtp/ProjectUtils.java:121-130 | when the nature occurs exactly once, at index k, the kept ids are the list with slot k removed, all others in their original order |
| `ProjectUtils.NullSlotIffRepeated` | org.eclipse.m2e.wtp/src/org/eclipse/m2e/wtp/ProjectUtils.java:124-129 | an array one slot shorter than the original, holding the other ids followed by nulls, has a null slot exactly when the nature occurred more than once |
| `ProjectUtils.RemoveNature` | org.eclipse.m2e.wtp/src/org/eclipse/m2e/wtp/ProjectUtils.java:120-133 | nothing is set iff the nature is absent; otherwise the new array is one shorter and holds the other ids in order, followed by null slots; a null slot appears iff the nature occurred more than once; the nature id is never in the new array |
| `ProjectUtils.FirstTarget` | org.eclipse.m2e.wtp/src/org/eclipse/m2e/wtp/ProjectUtils.java:166-175 | the inner loop picks the first remaining project with a non-null location equal to the current path that is accessible, or none when there is no such project |
| `ProjectUtils.ScanForTarget` | org.eclipse.m2e.wtp/src/org/eclipse/m2e/wtp/ProjectUtils.java:166-175 | the scan stops at exactly the position `FirstTarget` names, having passed only non-targets, or runs off the end when there is none |
| `ProjectUtils.RefreshHierarchy` | org.eclipse.m2e.wtp/src/org/eclipse/m2e/wtp/ProjectUtils.java:152-183 | the loop terminates after exactly `Levels` iterations (the segment-count difference); the refresh log is `Walk`; the count is the log's length and is at most min(levels, projects); no project is refreshed twice; each refreshed project is accessible, located strictly below the root and at or above the base directory; refreshes go child before parent |
| `ProjectUtils.WalkBounds` | org.eclipse.m2e.wtp/src/org/eclipse/m2e/wtp/ProjectUtils.java:160-179 | at most one project is refreshed per level and no more than there are candidates |
| `ProjectUtils.WalkDistinct` | org.eclipse.m2e.wtp/src/org/eclipse/m2e/wtp/ProjectUtils.java:169-173 | removing a refreshed project from the list means none is refreshed twice, and only listed projects are refreshed |
| `ProjectUtils.WalkTargets` | org.eclipse.m2e.wtp/src/org/eclipse/m2e/wtp/ProjectUtils.java:160-176 | only accessible projects with a location strictly below the root are refreshed, so the root location is never matched; each location is at or above the start path; locations strictly shrink, one per level |
| `ProjectUtils.WalkComplete` | org.eclipse.m2e.wtp/src/org/eclipse/m2e/wtp/ProjectUtils.java:160-176 | every level of the walk that holds an accessible listed project gets a project at that location refreshed |
| `ProjectUtils.MissingFoldersOrder` | org.eclipse.m2e.wtp/src/org/eclipse/m2e/wtp/ProjectUtils.java:106-115 | only folders that did not exist are created; each is the folder or one of its ancestors; each parent is created right before its child; the first one created lies in the project or in an existing folder; the folder itself is created last |
| `ProjectUtils.MissingFoldersExact` | org.eclipse.m2e.wtp/src/org/eclipse/m2e/wtp/ProjectUtils.java:106-115 | in a workspace where every folder's parent exists, the folders created are exactly the missing ones among the folder and its ancestors |
| `ProjectUtils.AncestorsExist` | org.eclipse.m2e.wtp/src/org/eclipse/m2e/wtp/ProjectUtils.java:106-115 | once a folder exists in a workspace where every folder's parent exists, all of its ancestor folders exist too; this is what `createFolder` leaves behind |
| `ProjectUtils.Workspace.CreateFolder` | org.eclipse.m2e.wtp/src/org/eclipse/m2e/wtp/ProjectUtils.java:106-115 | nothing changes for a null or existing folder; otherwise exactly the folders `MissingFolders` lists are created, in that order (parent first), and logged, and existing ones are untouched; afterwards the folder exists and every folder's parent still exists |
| `ProjectUtils.FirstExisting` | org.eclipse.m2e.wtp/src/org/eclipse/m2e/wtp/ProjectUtils.java:197-205 | finds the first underlying folder under which the file exists; every earlier folder lacks it |
| `ProjectUtils.GetWebResourceFile` | org.eclipse.m2e.wtp/src/org/eclipse/m2e/wtp/ProjectUtils.java:191-206 | null when there is no component; otherwise the file under the first underlying folder where it exists, or null when it exists under none; a returned file always exists |

## Left out

- `hideM2eclipseWtpFolder` only sets the host's derived and hidden flags when they are unset, then refreshes the parent. It has no logic of its own, so it is not modelled.
- The host calls are not modelled: `refreshLocal`, `setDescription`, `IFolder.create`, `ResourcesPlugin.getWorkspace()` and `ComponentCore.createComponent`. They become logs, parameters or returned values. What the host does with a null slot passed to `setNatureIds` is not modelled.
- `project.hasNature(natureId)` is taken to mean that the id occurs in the project's nature ids.
- `refreshDepth` and the progress monitor are left out. So are `monitor.done()`, the `try/finally` block and `CoreException` propagation.
- `ProjectUtils.GetM2eclipseWtpFolder`: the lone "." that `getRelativePath` returns for a build directory equal to the base directory is normalised away, giving `[m2e-wtp]`. `Path` keeps a lone "." segment, so the source returns `./m2e-wtp`, which is normalised only when `project.getFolder` appends it.
- Strings are sequences of Unicode characters, not of UTF-16 code units as Java's `length()` and `substring` count them. So `getRelativePath` cutting inside a surrogate pair is not modelled.
- `File.getAbsolutePath` is left out. The base directory and build directory strings are taken as given.
- `IPath` is only a list of segments. Devices, the absolute flag, trailing separators and the collapsing of ".." segments are left out. So are backslash separators on Windows.
- The values of `MavenWtpConstants.M2E_WTP_FOLDER` and `WEB_RESOURCES_FOLDER` are not known. They are parameters, assumed to be single segments.
- `project.getFile`, `project.getFolder` and project existence are not modelled. Folders and files are project-relative paths, and the project exists.
- Null arguments other than the folder of `createFolder` are not modelled: a null project, path or base directory would throw.
- `ProjectUtils.ScanForTarget`: the inner `while(ite.hasNext())` loop of `refreshHierarchy` is written as its own method instead of inline. Project handles are indices into the project list.
