# A verified model of the mydatabase document store and the basic web server's handlers

This project models two Go programs in Dafny and proves properties of the models.

**The file-backed document store** (`projects/mydatabase/main.go`). A `Driver` is bound to a root directory. It stores JSON records under `<root>/<collection>/<resource>.json`. It also keeps a registry of per-collection mutexes. The model is a state machine over an abstract file system:

- `FileSystem.FS` maps a path (a sequence of segments relative to the working directory, where `[]` is ".") to a node, which is a directory or a regular file holding bytes.
- Each os/ioutil call the store makes is a total function on that map. These are `Stat`, `Mkdir`, `MkdirAll`, `WriteFile`, `Rename` (for a regular file), `ReadFile`, `RemoveAll` and `ReadDir`. Each returns either the new map or the errno the system would report.
- `FileSystem.Wf` is the shape every real tree has: the working directory exists, and every entry sits in an existing directory. Lemmas that need it assume it, and the mutating operations are proved to preserve it.
- The operations that change state (`New`, `Write`, `Delete`) are functions from (driver, file system, arguments) to (error, driver', file system'). `GetOrCreateMutex` maps a driver and a collection to a mutex and a new driver. The readers (`Read`, `ReadAll`, and the `stat` helper `StatOrJson`) return only a result and change nothing. `ReadAll` is a method because the Go code reads the entries in a loop.
- JSON marshalling and unmarshalling are parameters: `marshal: D -> Option<Bytes>` and `unmarshal: Bytes -> Option<D>`. Each may fail.

The model follows the code as written, including these quirks:

- `stat` never returns an error. Its `if _, err := ...` declares a new `err`, so the named result stays nil. `fi` is nil whenever the path itself exists. The existence checks in `Read`, `ReadAll` and `Delete` therefore never fire.
- `ReadAll` ignores the error from `ReadDir`. A missing collection directory therefore gives no records and no error.
- `ioutil.ReadDir` sorts entries by name, so `ReadAll` returns records in that order (`Names.SortedSeq`).
- `Delete` validates neither key. It always takes the collection's mutex. Its directory branch is reached only when `<r>.json` is a directory, and it then removes the extensionless path, which does not exist. So that case succeeds without removing anything. An existing directory at `<root>/<c>/<r>` is reported as not found.
- `New` accepts an existing root that is a regular file.

The program's own text shows what several of these branches were meant to do. The comments at `main.go:145` ("Check if the file exists") and `main.go:170` ("Check if the directory exists") show that `Read` and `ReadAll` were meant to stop on a missing path. The directory case at `main.go:208-209` shows that `Delete` was meant to remove a directory at `<root>/<c>/<r>`. All three fail because of the `stat` bug listed under Findings, and the model keeps the behaviour as written. `Delete`'s missing key check is a separate gap: `main.go:194-198` has no key test at all, and a corrected `stat` would not add one.

**The two HTTP handlers** (`projects/basic-web-server/main.go`) are pure functions. Each maps the request fields it reads to a status code and the body fragments in write order. Those fields are the path, the method, the ParseForm error and the two form values.

Files: `results.dfy` (Option/Result), `names.dfy` (name order and sorted listing), `filesystem.dfy` (the abstract OS), `store.dfy` (the store), `intended.dfy` (the corrected `stat`/`Delete` of the finding below), `webserver.dfy` (the handlers).

## Model

| member | source | states |
|---|---|---|
| Store.New | projects/mydatabase/main.go:55-82 | The new driver has the given root and an empty, consistent registry. An existing root of any kind is accepted and nothing changes. Otherwise the root is created: on success only ancestors of the root are added, all as directories; on failure the file system is unchanged and the error is returned with the driver. |
| Store.NewSucceedsIff | projects/mydatabase/main.go:75-81 | On a well-formed tree, New fails exactly when the root is missing and one of its segments is a regular file. A root it creates is a directory, and the tree stays well formed. |
| Store.NewIdempotent | projects/mydatabase/main.go:75-81 | After a successful New, opening the same root again succeeds and changes nothing. |
| Store.StatOrJson | projects/mydatabase/main.go:85-90 | The error result is always nil. `fi` is nil when the path exists. A non-nil `fi` is the node at `path.json`, and the bare path is then absent. When the bare path is missing (ENOENT) and `path.json` exists, `fi` is non-nil. |
| Store.GetOrCreateMutex | projects/mydatabase/main.go:217-228 | The returned mutex is the one registered for the collection afterwards. The registry gains at most that key and changes no existing entry. A registered collection leaves the driver unchanged. A new mutex differs from every mutex already handed out, and the registry stays injective. |
| Store.LockLookupIdempotent | projects/mydatabase/main.go:217-228 | Two lookups of the same collection return the same mutex, and the second leaves the registry as the first did. |
| Store.DistinctCollectionsDistinctLocks | projects/mydatabase/main.go:217-228 | Different collections get different mutexes, and a later lookup of another collection does not replace an earlier mutex. |
| Store.Layout | projects/mydatabase/main.go:108-110 | For non-empty keys the record lives at `<root>/<c>/<r>.json` and is staged at `<root>/<c>/<r>.json.temp`. These and the bare `<root>/<c>/<r>` are three distinct entries of the collection directory `<root>/<c>`. |
| Store.Write | projects/mydatabase/main.go:93-131 | An empty collection or resource gives its own error and leaves driver and files unchanged. Otherwise the collection's mutex is registered. On success the collection path is a directory, `<r>.json` holds the marshalled bytes plus one newline, the temp file is absent, and every other existing entry is unchanged. On any failure `<r>.json` is exactly as before, and only the temp file may have changed. New entries are only the record, the temp file, or ancestors of the collection directory. |
| Store.WriteSucceedsIff | projects/mydatabase/main.go:112-130 | On a well-formed tree, Write succeeds exactly when: both keys are non-empty, no segment of the collection path is a file, marshalling succeeds, and neither the temp path nor the record path is a directory. |
| Store.WritePreservesWf | projects/mydatabase/main.go:107-130 | Write keeps the tree well formed, whether it succeeds or fails. |
| Store.WriteOntoDirectory | projects/mydatabase/main.go:112-130 | Take a Write that gets past MkdirAll, marshalling and the temp write, with a directory sitting at `<r>.json`. The final rename fails with EEXIST, because os.Rename on Unix refuses a directory destination with that errno. The temp file is left holding the marshalled bytes plus newline, and the directory at `<r>.json` is kept. |
| Store.Read | projects/mydatabase/main.go:134-159 | Empty keys give the collection or resource error. Otherwise the result is the unmarshalled contents of `<r>.json`, or the error from reading `<r>.json`. A successful read means `<r>.json` is a regular file whose bytes unmarshal to the result. |
| Store.ReadIgnoresBarePath | projects/mydatabase/main.go:143-151 | Replacing or removing whatever is at the extensionless `<root>/<c>/<r>` does not change Read's result. |
| Store.WriteThenRead | projects/mydatabase/main.go:122-158 | After a successful Write, Read hands the unmarshaller exactly the marshalled bytes followed by the newline. |
| Store.ReadMissing | projects/mydatabase/main.go:146-155 | A record missing from an existing collection directory is reported as ENOENT, even though the stat check never fires. |
| Store.ReadAll | projects/mydatabase/main.go:162-191 | An empty collection gives the collection error. A missing directory, or a collection path that is not a directory, gives no records and no error. Otherwise the result is either every entry's contents in sorted listing order, or the error of the first entry that cannot be read, with no records. |
| Store.WriteThenListed | projects/mydatabase/main.go:108-130 | After a successful Write the collection directory can be listed. Its listing contains `<r>.json` and not `<r>.json.temp`. |
| Store.Delete | projects/mydatabase/main.go:194-214 | The collection's mutex is always registered, with no key check first. Errors are only NotFound or OS errors, never a missing-key error. A failed Delete changes no file. Success implies the bare path is absent and `<r>.json` exists. Delete only removes entries, and only ones at or under the bare path or `<r>.json`. |
| Store.DeleteCases | projects/mydatabase/main.go:203-213 | On a well-formed tree, Delete succeeds exactly when the bare path is absent and `<r>.json` exists. It then removes just `<r>.json` if that is a regular file, and nothing if it is a directory. Otherwise it reports NotFound for the bare path and changes nothing. The tree stays well formed. |
| Store.WriteDeleteRead | projects/mydatabase/main.go:194-213 | Take a well-formed tree where a Write can succeed: both keys non-empty, marshalling succeeds, no file on the collection path, and none of the record's three paths present. Then Write, Delete and Read in sequence: the Write and the Delete succeed, the record file is gone, and the Read reports ENOENT. |
| Intended.Stat | projects/mydatabase/main.go:85-90 | Corrected stat: `fi` is non-nil exactly when `err` is nil. An existing path gives its own node. For a missing path (ENOENT), success means `path.json` exists, and `fi` is then that node. |
| Intended.Delete | projects/mydatabase/main.go:194-214 | Corrected Delete, using the corrected stat on the rooted path. A failure changes no file. It only ever removes entries. |
| Intended.DeleteRemovesTarget | projects/mydatabase/main.go:205-211 | The corrected Delete removes a directory at `<root>/<c>/<r>` with everything under it. It removes `<r>.json` when only that file exists. When neither exists it fails and changes nothing. |
| Intended.DirectoryDeleteDiffers | projects/mydatabase/main.go:205-211 | Take root `db` with a directory `db/users/team`. The written Delete reports NotFound and keeps the directory; the corrected one succeeds and removes it. |
| Intended.MissingCollectionDiffers | projects/mydatabase/main.go:170-176 | Take any collection directory that is missing and has no `<c>.json` sibling. The listing fails there, which ReadAll turns into an empty result, and the written stat reports no error. The corrected stat reports the listing's own error, and that error is ENOENT when the parent directory exists. A `<c>.json` file would make the corrected stat succeed as well, so such a sibling is excluded. |
| WebServer.Hello | projects/basic-web-server/main.go:9-21 | A path other than `/hello` gives 404 "404 not found" for any method. `/hello` with a method other than GET gives 405. The status is 200 exactly for a GET of `/hello`, and the body is then "Hello!". |
| WebServer.HelloIgnoresForm | projects/basic-web-server/main.go:9-21 | helloHandler's response does not depend on the ParseForm outcome or the form values. |
| WebServer.Form | projects/basic-web-server/main.go:23-31 | A path other than `/form` gives 404 whatever the method, so the path check comes first. `/form` with a method other than POST gives 405. The status is 200 exactly for a POST to `/form`. |
| WebServer.FormParseErrorContinues | projects/basic-web-server/main.go:33-38 | A ParseForm error only prepends "ParseForm() error: ..." to the body. The rest of the response equals that of the same request with parsing succeeding. |
| WebServer.FormMissingField | projects/basic-web-server/main.go:40-43 | For a POST to `/form` with an empty name or email, the body contains the prompt and never the success message. |
| WebServer.FormSubmittedIff | projects/basic-web-server/main.go:40-45 | The success message appears exactly for a POST to `/form` with both fields non-empty. It is then the last fragment, and the prompt is absent. |

## Left out

- Concurrency: `sync.Mutex` locking, blocking and the driver's own registry mutex are not modelled. Only the registry map of mutex ids is kept, and each operation runs atomically.
- Crash atomicity: `os.Rename` is a single map update. That a crash leaves the old or the new file is an OS guarantee, not something the model proves.
- OS failures other than the structural ones: permission errors, a full disk, and I/O errors. Permission bits (0755, 0644), symbolic links, and special files are not modelled, so Delete's final `return nil` for a node that is neither a directory nor a regular file cannot be reached.
- `os.Rename` is modelled only for a regular-file source, which is the only way Write calls it. `MkdirAll`'s re-check after a failed `Mkdir` matters only when another process creates the directory at the same moment, so it is dropped.
- `filepath.Clean` and `filepath.Join` normalisation: a collection or resource is one opaque segment. A name that contains `/` or is exactly `.` or `..`, and absolute roots, are not modelled. Names that merely contain dots, such as `john.doe`, are ordinary segments. `Join` only drops empty names.
- `json.MarshalIndent` and `json.Unmarshal` are uninterpreted parameters. Tab indentation and a decode-of-encode round trip are not modelled; only the byte-level round trip is.
- The lumber logger, the `Logger` interface and `Options`: logging has no effect on results.
- `main` of both programs: demo data, printing, the route table, `http.FileServer` and `ListenAndServe`. formHandler's printing of name and email to standard output is also out.
- `ParseForm` and `FormValue` internals: their outcomes are inputs. The headers that `http.Error` sets are not modelled.
- `basic/07-pointers`, `basic/08-array`, `basic/09-slices`, `basic/10-map`: these only print built-in language behaviour.

## Findings

| source | as written | input that shows it | evidently intended | confidence | as-written member | corrected member |
|---|---|---|---|---|---|---|
| projects/mydatabase/main.go:85-90 | `if _, err := os.Stat(path); ...` declares new variables, so stat's `err` result is never set and `fi` stays nil whenever the path exists. As a result, Delete reports an existing directory as not found and cannot remove it, and ReadAll treats a missing collection as empty. | Root `db` with a directory `db/users/team`; `Delete("users", "team")` returns "unable to find file or directory" and removes nothing | `fi, err = os.Stat(path)`, falling back to `path.json` only when the path does not exist. Delete then checks the rooted path, which the code at line 195 also leaves un-rooted, and removes the directory. | high; not executed | Intended.DirectoryDeleteDiffers | Intended.DeleteRemovesTarget |

The store model (`Store.*`) keeps the `stat` as written, because that is the program's behaviour. The corrected `stat` and `Delete` are in module `Intended`, with the intended property proved about them.
