# python-for-android start-up glue: log stream and search path

`src/jni/application/python/start.c` is the native entry point of a
python-for-android application. It starts a Python 2.7 interpreter and
registers the `androidembed.log` function. It then runs a short bootstrap
script, embedded as a C string, and finally executes the user's `main.py`.
The bootstrap script holds the only logic of its own:

- it reads `ANDROID_PRIVATE` and `ANDROID_ARGUMENT` from `posix.environ`;
- it replaces the whole of `sys.path` with four entries: three library
  directories under the private root, then the application directory;
- it installs one `LogFile` object as both `sys.stdout` and `sys.stderr`.
  `LogFile` buffers the text of an unfinished line. On each `write(s)` it
  splits `buffer + s` on `"\n"`, sends every complete line to
  `androidembed.log`, and keeps the last fragment as the new buffer.

This project models that script in three modules:

- `Lines` (`lines.dfy`) models Python's `str.split` on a one-character
  separator (`Split`). It also defines the inverse, `Terminated`: each line
  followed by the separator, concatenated. Lemmas prove the round trip in
  both directions and the fragment count.
- `LogStream` (`log_file.dfy`) models the effect of one write (`Step`) and of
  a whole session of writes (`Run`). The class `LogFile` has the Python
  object's `buffer` field. A `logged` sequence stands for the calls made to
  `androidembed.log`, in order. The object invariant `Valid` ties the state
  to `Run` of every string written so far.
- `Bootstrap` (`bootstrap.dfy`) models the environment lookup (`ReadRoots`)
  and the search path (`SearchPath`). The class `Sys` holds `path`,
  `stdout` and `stderr`; its `Run` method performs the bootstrap.

The environment is a `map<string, string>` parameter. The log sink is the
`logged` field. A null stream in `Sys` stands for the interpreter's own
console stream.

A missing variable is not fatal. The `KeyError` stops the bootstrap script,
but `main` ignores the result of `PyRun_SimpleString` and goes on to run
`main.py`, so `sys.path` and the standard streams stay as they were.
`Sys.Run` reports that case as `ok == false` and changes nothing.

## Model

| member | source | states |
|---|---|---|
| `Lines.Split` | src/jni/application/python/start.c:76 | `str.split("\n")` always returns at least one fragment, and no fragment contains the separator |
| `Lines.SplitWithoutSep` | src/jni/application/python/start.c:76 | a text splits into the single fragment `[s]` if and only if it holds no separator |
| `Lines.SplitAfterFirstSep` | src/jni/application/python/start.c:76 | a separator-free text followed by a separator contributes exactly one leading fragment |
| `Lines.SplitRecombine` | src/jni/application/python/start.c:76 | round trip: the complete fragments, each followed by `"\n"`, and then the last fragment, give back the text that was split |
| `Lines.SplitTerminated` | src/jni/application/python/start.c:76 | converse round trip: separator-free lines, terminated and followed by a separator-free rest, split back into exactly those lines and that rest |
| `Lines.SplitCount` | src/jni/application/python/start.c:76 | there is exactly one fragment more than there are separators, so empty fragments from adjacent separators are kept |
| `Lines.SplitLastEmpty` | src/jni/application/python/start.c:76 | the last fragment is empty if and only if the text is empty or ends with the separator |
| `LogStream.Run` | src/jni/application/python/start.c:71-80 | the state a fresh `LogFile` reaches after a sequence of writes, each applied as `Step` to the buffer the previous one left; its buffer never holds a newline |
| `LogStream.Step` | src/jni/application/python/start.c:75-79 | one write logs newline-free lines and keeps a newline-free buffer, and those lines, each followed by `"\n"`, and then the new buffer, equal the old buffer followed by `s` |
| `LogStream.StepUnique` | src/jni/application/python/start.c:75-79 | the logged lines and the new buffer are the only decomposition of `buffer + s` into newline-free lines and a newline-free rest |
| `LogStream.StepRestFollowsLastNewline` | src/jni/application/python/start.c:75-79 | the new buffer is the suffix of `buffer + s` after its last newline: a newline-free suffix preceded by a newline or by nothing |
| `LogStream.StepLineCount` | src/jni/application/python/start.c:76-78 | given a newline-free buffer, a write logs as many lines as `s` contains newlines |
| `LogStream.StepWithoutNewline` | src/jni/application/python/start.c:75-79 | a write without a newline logs nothing and appends `s` to the buffer; writing `""` changes nothing |
| `LogStream.StepEmptiesBuffer` | src/jni/application/python/start.c:76-79 | a write leaves the buffer empty if and only if `buffer + s` is empty or ends with a newline |
| `LogStream.RunPreservesContent` | src/jni/application/python/start.c:71-80 | after any sequence of writes to a fresh stream, the buffer holds no newline, and the logged lines, each followed by `"\n"`, and then the buffer, equal everything written, in order |
| `LogStream.RunLineCount` | src/jni/application/python/start.c:71-80 | after any sequence of writes to a fresh stream, one line has been logged per newline written |
| `LogStream.LogFile.constructor` | src/jni/application/python/start.c:72-73 | a new `LogFile` has an empty buffer and has logged nothing |
| `LogStream.LogFile.Write` | src/jni/application/python/start.c:74-79 | `write(s)` appends exactly the complete fragments of `buffer + s` to the log, in order, keeps the last fragment as the buffer, and keeps the invariant that the state is `Run` of all writes |
| `Bootstrap.ReadRoots` | src/jni/application/python/start.c:63-64 | both roots are found if and only if both variables are set; otherwise the `KeyError` names `ANDROID_PRIVATE` when it is missing, else `ANDROID_ARGUMENT` |
| `Bootstrap.SearchPath` | src/jni/application/python/start.c:65-69 | the list assigned to `sys.path[:]` has four entries: the first three begin with `<private>/lib/python2.7/`, and the application directory is last |
| `Bootstrap.SearchPathPrecedence` | src/jni/application/python/start.c:65-69 | the search path has four entries: three distinct directories under `<private>/lib/python2.7/`, then the application directory last |
| `Bootstrap.Sys.Run` | src/jni/application/python/start.c:62-80 | on success `sys.path` becomes the four-entry path whatever it held before, and `stdout` and `stderr` are one fresh, empty `LogFile`; on a missing variable nothing changes |

## Left out

- Interpreter lifecycle and C-API calls (`Py_SetProgramName`, `Py_Initialize`, `PySys_SetArgv`, `PyEval_InitThreads`, `Py_InitModule`, `PyRun_SimpleFile`, `Py_Finalize`): these are foreign library calls whose behaviour is not visible here.
- `androidembed_log` and the `LOG` macro (`__android_log_write`): the platform log is modelled only as appends to `LogFile.logged`.
- LogStream.LogFile.Write: `androidembed.log` parses its argument with the `"s"` format of `PyArg_ParseTuple`, which rejects a line holding a NUL character with `TypeError`. That would abort the write midway, with the earlier lines logged and the buffer unchanged. This is foreign-library behaviour, and the model logs every line.
- Python 2 `unicode` arguments to `write` and their implicit encoding: strings are modelled as sequences of characters.
- Environment and filesystem I/O (`getenv`, `setenv`, `chdir`, `fopen`, `fclose`): the environment is a map parameter, and the other calls do no modelled work. When `ANDROID_ARGUMENT` is missing, the program reaches the modelled `KeyError` only after `main` has already passed the NULL from `getenv` to `setenv("ANDROID_APP_PATH", ...)`; it later passes the same NULL to `chdir`. What those calls do with NULL is not modelled.
- Running `main.py` and the exit status (`PyErr_Occurred`, `PyErr_Print`, `Py_FlushLine`, the `-1` return when `main.py` cannot be opened): the status is decided inside the interpreter.
- The three diagnostic `print` statements at the end of the bootstrap script: they only produce output. In the real program they also pass through the new `LogFile`, so its state after bootstrap is not empty. `Bootstrap.Sys.Run` describes the state just before those prints.
- Bootstrap.Sys.Run: `sys.path[:] = ...` keeps the list object's identity, so other references to it see the new entries. The model's `path` is a sequence value and does not capture that aliasing.
- Text still buffered when the interpreter shuts down is dropped; the model has no flush operation because the source has none.
