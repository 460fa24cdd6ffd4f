/**
 The `transcribe` handler of app.py with the speech model taken out: the
 model's result and its `json.dumps` text come in as values, and what remains
 is deriving the subtitle text and handing the three texts to `save_files`.
 */
module App {
  import opened Wrappers
  import opened Srt
  import opened Bundle

  /** The part of the model's result the handler reads: `result["text"]` and `result["segments"]`. */
  datatype Transcript = Transcript(text: string, segments: seq<Segment>)

  /** The seven values handed back to the interface, in their order. */
  datatype Outputs = Outputs(
    txtFile: string, srtFile: string, jsonFile: string, zipFile: string,
    text: string, srt: string, json: string)

  datatype Handled = Handled(fs: FileSystem, result: Result<Outputs, FsError>)

  /** `transcribe(audio_file)` once the model has produced `result` and `json.dumps` has produced `json`. */
  function Transcribe(fs: FileSystem, audioFile: string, result: Transcript, json: string): Handled {
    var srt := SrtOf(result.segments);
    var saved := SaveFiles(fs, OutputDir, result.text, srt, json, Basename(audioFile));
    match saved.result
    case Failure(e) => Handled(saved.fs, Failure(e))
    case Success(p) => Handled(saved.fs, Success(Outputs(p.txt, p.srt, p.json, p.zip, result.text, srt, json)))
  }

  /** The handler fails exactly when a directory or file stands in the way of the output. */
  lemma TranscribeSucceedsIff(fs: FileSystem, audioFile: string, result: Transcript, json: string)
    ensures Transcribe(fs, audioFile, result, json).result.Success? <==> Writable(fs, OutputDir, StemOf(Basename(audioFile)))
  {
    SaveSucceedsIff(fs, OutputDir, result.text, SrtOf(result.segments), json, StemOf(Basename(audioFile)));
  }

  /**
   The three texts are views of one result: the strings shown, the files
   written and the archive entries agree, and the subtitle text is the
   document assembled from the segments.
   */
  lemma TranscribeViewsAgree(fs: FileSystem, audioFile: string, result: Transcript, json: string)
    requires Writable(fs, OutputDir, StemOf(Basename(audioFile)))
    ensures var h := Transcribe(fs, audioFile, result, json);
            && h.result.Success?
            && var o := h.result.value;
               var n := NamesFor(StemOf(Basename(audioFile)));
               && o.text == result.text && o.srt == SrtOf(result.segments) && o.json == json
               && PathsFor(OutputDir, StemOf(Basename(audioFile))) == BundleNames(o.txtFile, o.srtFile, o.jsonFile, o.zipFile)
               && o.txtFile in h.fs && h.fs[o.txtFile] == TextFile(o.text)
               && o.srtFile in h.fs && h.fs[o.srtFile] == TextFile(o.srt)
               && o.jsonFile in h.fs && h.fs[o.jsonFile] == TextFile(o.json)
               && o.zipFile in h.fs && h.fs[o.zipFile] == ZipArchive([Entry(n.txt, o.text), Entry(n.srt, o.srt), Entry(n.json, o.json)])
  {
    var srt := SrtOf(result.segments);
    var stem := StemOf(Basename(audioFile));
    TranscribeOutcome(fs, audioFile, result, json);
    SavedHolds(fs, OutputDir, result.text, srt, json, stem);
  }

  /** With the outputs writable, the handler returns the saved paths and the three texts. */
  lemma TranscribeOutcome(fs: FileSystem, audioFile: string, result: Transcript, json: string)
    requires Writable(fs, OutputDir, StemOf(Basename(audioFile)))
    ensures var srt := SrtOf(result.segments);
            var stem := StemOf(Basename(audioFile));
            var p := PathsFor(OutputDir, stem);
            Transcribe(fs, audioFile, result, json)
              == Handled(Saved(fs, OutputDir, result.text, srt, json, stem),
                         Success(Outputs(p.txt, p.srt, p.json, p.zip, result.text, srt, json)))
  {
    SaveFilesSpec(fs, OutputDir, result.text, SrtOf(result.segments), json, Basename(audioFile));
  }

  /** An upload stored at `dir/name.ext` is saved as `transcriptions/name.txt` and so on. */
  lemma UploadNaming(dir: string, name: string, ext: string)
    requires name != "" && ext != "" && '.' !in ext
    requires '/' !in name && '/' !in ext
    ensures PathsFor(OutputDir, StemOf(Basename(dir + "/" + name + "." + ext)))
         == BundleNames(Join(OutputDir, name + ".txt"), Join(OutputDir, name + ".srt"),
                        Join(OutputDir, name + ".json"), Join(OutputDir, name + "_all.zip"))
  {
    var p := dir + "/" + name + "." + ext;
    LastIndexIs(p, '/', |dir|);
    assert Basename(p) == name + "." + ext;
    UploadNames(name, ext);
  }
}
