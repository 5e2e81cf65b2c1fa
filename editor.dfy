/**
 * The editor window (`HostsFileEditor`) and its two modal dialogs, reduced
 * to the state the buttons change: the text being edited, the flag that
 * records unsaved edits, the open dialog, and the files on disk.
 */
module Editor {
  import opened Options
  import opened Text
  import opened Sorting
  import AutoClean
  import Dedup
  import Keyword
  import PfSense
  import Diff

  /** HOSTS_FILE_PATH. */
  const HostsPath: string := "C:\\Windows\\System32\\drivers\\etc\\hosts"

  /** `os.path.join(os.path.dirname(HOSTS_FILE_PATH), 'hosts.txt')` with Windows path rules. */
  const BackupPath: string := "C:\\Windows\\System32\\drivers\\etc\\hosts.txt"

  /** The two processors offered through the preview. */
  datatype Processor = CleanProcessor | DedupProcessor

  function Process(p: Processor, lines: seq<string>): seq<string> {
    match p
    case CleanProcessor => AutoClean.Clean(lines)
    case DedupProcessor => Dedup.Dedup(lines)
  }

  /** The modal window on top of the editor, if any. */
  datatype Dialog =
    | NoDialog
    | Preview(candidate: seq<string>, rows: seq<Diff.Row>)
    | KeywordSelection(matches: seq<string>)

  /** The operator's answers and the outcome of each file operation during one save. */
  datatype SaveAnswers = SaveAnswers(
    confirmEmpty: bool,
    confirmOverwrite: bool,
    backupSucceeds: bool,
    saveWithoutBackup: bool,
    writeSucceeds: bool)

  /** The save gets past both confirmation questions. */
  predicate Confirmed(content: string, a: SaveAnswers) {
    (!IsBlank(content) || a.confirmEmpty) && a.confirmOverwrite
  }

  /** A backup copy is written. */
  predicate BacksUp(disk: map<string, string>, content: string, a: SaveAnswers) {
    Confirmed(content, a) && HostsPath in disk && a.backupSucceeds
  }

  /** The hosts file is overwritten with the editor's content. */
  predicate Writes(disk: map<string, string>, content: string, a: SaveAnswers) {
    && Confirmed(content, a)
    && (HostsPath !in disk || a.backupSucceeds || a.saveWithoutBackup)
    && a.writeSucceeds
  }

  /** The files after a save of `content`: no file disappears, and only the hosts file or its backup can appear. */
  function SaveStore(disk: map<string, string>, content: string, a: SaveAnswers): (d: map<string, string>)
    ensures disk.Keys <= d.Keys <= disk.Keys + {HostsPath, BackupPath}
  {
    var backedUp := if BacksUp(disk, content, a) then disk[BackupPath := disk[HostsPath]] else disk;
    if Writes(disk, content, a) then backedUp[HostsPath := content] else backedUp
  }

  /** After a save the hosts file holds the content exactly when it was written, and is otherwise as before. */
  lemma SaveWritesContent(disk: map<string, string>, content: string, a: SaveAnswers)
    ensures var d := SaveStore(disk, content, a);
            (Writes(disk, content, a) ==> HostsPath in d && d[HostsPath] == content) &&
            (!Writes(disk, content, a) ==> (HostsPath in d <==> HostsPath in disk) &&
                                           (HostsPath in disk ==> d[HostsPath] == disk[HostsPath]))
  {
  }

  /**
   * The hosts file changes only after the overwrite is confirmed, after the
   * extra confirmation for a blank editor, and, when a backup was due and
   * failed, only with the operator's consent.
   */
  lemma SaveNeedsConsent(disk: map<string, string>, content: string, a: SaveAnswers)
    requires var d := SaveStore(disk, content, a);
             HostsPath in d && (HostsPath !in disk || d[HostsPath] != disk[HostsPath])
    ensures a.confirmOverwrite
    ensures IsBlank(content) ==> a.confirmEmpty
    ensures HostsPath in disk && !a.backupSucceeds ==> a.saveWithoutBackup
    ensures a.writeSucceeds
  {
    assert |BackupPath| != |HostsPath|;
  }

  /** A backup holds the hosts file's content from before the save, and is made only when that file existed. */
  lemma BackupIsPriorContent(disk: map<string, string>, content: string, a: SaveAnswers)
    ensures var d := SaveStore(disk, content, a);
            BackupPath in d && (BackupPath !in disk || d[BackupPath] != disk[BackupPath]) ==>
              HostsPath in disk && d[BackupPath] == disk[HostsPath] && a.confirmOverwrite
    ensures HostsPath !in disk ==> var d := SaveStore(disk, content, a);
              (BackupPath in d <==> BackupPath in disk) &&
              (BackupPath in disk ==> d[BackupPath] == disk[BackupPath])
    ensures BacksUp(disk, content, a) ==> SaveStore(disk, content, a)[BackupPath] == disk[HostsPath]
  {
  }

  /** A save touches no file besides the hosts file and its backup. */
  lemma SaveTouchesTwoFiles(disk: map<string, string>, content: string, a: SaveAnswers, path: string)
    requires path != HostsPath && path != BackupPath
    ensures var d := SaveStore(disk, content, a);
            (path in d <==> path in disk) && (path in disk ==> d[path] == disk[path])
  {
  }

  /** Text saved (with the widget's closing newline) and loaded again is the same text. */
  lemma SaveLoadRoundTrip(text: string)
    ensures JoinWith(SplitLines(text + "\n"), '\n') == text
  {
    SplitLinesTerminated(text);
    SplitJoin(text, '\n');
  }

  class HostsEditor {
    /** The text widget's content, without the newline the widget keeps after it. */
    var text: string
    var isModified: bool
    var dialog: Dialog
    /** The files, by path. */
    var disk: map<string, string>

    /**
     * `get_lines`: the widget's content with its closing newline, split into
     * lines; they hold no line break, and joined back they are the content.
     */
    function GetLines(): (lines: seq<string>)
      reads this
      ensures forall k :: 0 <= k < |lines| ==> '\n' !in lines[k]
      ensures JoinWith(lines, '\n') == text
    {
      SaveLoadRoundTrip(text);
      SplitLines(text + "\n")
    }

    /** The content `set_text` puts into the widget. */
    static function Rendered(lines: seq<string>): string {
      JoinWith(lines, '\n')
    }

    /** `__init__`: an empty editor, then the initial load that skips the unsaved-changes question. */
    constructor (files: map<string, string>, readSucceeds: bool)
      ensures disk == files && dialog == NoDialog && !isModified
      ensures text == if HostsPath in files && readSucceeds then Rendered(SplitLines(files[HostsPath])) else ""
    {
      text := "";
      isModified := false;
      dialog := NoDialog;
      disk := files;
      new;
      LoadFile(true, false, readSucceeds);
    }

    /** `set_text`: replace the content and clear the modified flag. */
    method SetText(lines: seq<string>)
      modifies this
      ensures text == Rendered(lines) && !isModified
      ensures dialog == old(dialog) && disk == old(disk)
      ensures lines != [] && (forall k :: 0 <= k < |lines| ==> '\n' !in lines[k]) ==> GetLines() == lines
      ensures lines == [] ==> GetLines() == [""]
    {
      text := JoinWith(lines, '\n');
      isModified := false;
      SplitLinesTerminated(text);
      if lines != [] && (forall k :: 0 <= k < |lines| ==> '\n' !in lines[k]) {
        SplitLinesOfWritten(lines);
      }
    }

    /** The operator types into the widget (`on_text_modified`). */
    method Edit(newText: string)
      modifies this
      ensures text == newText && isModified
      ensures dialog == old(dialog) && disk == old(disk)
    {
      text := newText;
      isModified := true;
    }

    /** `load_file`: reload the hosts file, asking first when there are unsaved edits. */
    method LoadFile(isInitialLoad: bool, confirmRefresh: bool, readSucceeds: bool)
      modifies this
      ensures dialog == old(dialog) && disk == old(disk)
      ensures var proceeds := !(old(isModified) && !isInitialLoad && !confirmRefresh) &&
                              HostsPath in disk && readSucceeds;
              if proceeds then text == Rendered(SplitLines(disk[HostsPath])) && !isModified
              else text == old(text) && isModified == old(isModified)
    {
      if isModified && !isInitialLoad {
        if !confirmRefresh {
          return;
        }
      }
      if HostsPath in disk && readSucceeds {
        SetText(SplitLines(disk[HostsPath]));
      }
    }

    /** `save_file`, with the operator's answers and the file operations' outcomes given. */
    method SaveFile(a: SaveAnswers)
      modifies this
      ensures disk == SaveStore(old(disk), old(text) + "\n", a)
      ensures isModified == if Writes(old(disk), old(text) + "\n", a) then false else old(isModified)
      ensures text == old(text) && dialog == old(dialog)
    {
      var contentToSave := text + "\n";
      if IsBlank(contentToSave) {
        if !a.confirmEmpty {
          return;
        }
      }
      if a.confirmOverwrite {
        if HostsPath in disk {
          if a.backupSucceeds {
            var originalContent := disk[HostsPath];
            disk := disk[BackupPath := originalContent];
          } else if !a.saveWithoutBackup {
            return;
          }
        }
        if a.writeSucceeds {
          disk := disk[HostsPath := contentToSave];
          isModified := false;
        }
      }
    }

    /**
     * `process_and_preview`: run a processor and open the preview only if it
     * changes something. `script` is the `difflib.ndiff` output for the
     * current and the processed lines; the preview then shows every line of
     * both versions, in order.
     */
    method ProcessAndPreview(p: Processor, script: seq<string>)
      requires Diff.IsDiffOf(script, GetLines(), Process(p, GetLines()))
      modifies this
      ensures text == old(text) && isModified == old(isModified) && disk == old(disk)
      ensures var processed := Process(p, old(GetLines()));
              if processed == old(GetLines()) then dialog == old(dialog)
              else && dialog == Preview(processed, Diff.Rows(script))
                   && Diff.Kept(dialog.rows, Diff.Original) == old(GetLines())
                   && Diff.Kept(dialog.rows, Diff.New) == processed
    {
      var originalLines := GetLines();
      var processedLines;
      if p == CleanProcessor {
        processedLines := AutoClean.CleanLines(originalLines);
      } else {
        processedLines := Dedup.DedupLines(originalLines);
      }
      if originalLines != processedLines {
        Diff.PreviewShowsBothSides(script, originalLines, processedLines);
        var rows := Diff.DisplayDiff(script);
        dialog := Preview(processedLines, rows);
      }
    }

    /** `PreviewWindow.apply_changes`: take the candidate and close the preview. */
    method ApplyChanges()
      requires dialog.Preview?
      modifies this
      ensures text == Rendered(old(dialog).candidate) && !isModified
      ensures dialog == NoDialog && disk == old(disk)
    {
      var candidate := dialog.candidate;
      SetText(candidate);
      dialog := NoDialog;
    }

    /** Cancel, or closing either dialog's window: nothing but the dialog changes. */
    method CloseDialog()
      modifies this
      ensures dialog == NoDialog
      ensures text == old(text) && isModified == old(isModified) && disk == old(disk)
    {
      dialog := NoDialog;
    }

    /** `remove_by_keyword`: find the matching lines and open the selection dialog. */
    method RemoveByKeyword(entry: string)
      modifies this
      ensures text == old(text) && isModified == old(isModified) && disk == old(disk)
      ensures var keyword := Strip(entry);
              var matches := Keyword.Matches(old(GetLines()), keyword);
              if keyword == "" || matches == [] then dialog == old(dialog)
              else dialog == KeywordSelection(matches)
    {
      var keyword := Strip(entry);
      if keyword == "" {
        return;
      }
      var matchingLines := Keyword.Matches(GetLines(), keyword);
      if matchingLines == [] {
        return;
      }
      dialog := KeywordSelection(matchingLines);
    }

    /** `confirm_removal`: drop every line equal to a checked match, or nothing when none is checked. */
    method ConfirmRemoval(checks: seq<bool>)
      requires dialog.KeywordSelection? && |checks| == |dialog.matches|
      modifies this
      ensures dialog == NoDialog && disk == old(disk)
      ensures var toRemove := set i | 0 <= i < |checks| && checks[i] :: old(dialog).matches[i];
              if toRemove == {} then text == old(text) && isModified == old(isModified)
              else text == Rendered(Keyword.RemoveLines(old(GetLines()), toRemove)) && !isModified
    {
      var matches := dialog.matches;
      var linesToRemove := Keyword.CheckedLines(matches, checks);
      ghost var chosen := set i | 0 <= i < |checks| && checks[i] :: matches[i];
      assert linesToRemove == chosen;
      if linesToRemove == {} {
        dialog := NoDialog;
        return;
      }
      var originalLines := GetLines();
      SetText(Keyword.RemoveLines(originalLines, linesToRemove));
      dialog := NoDialog;
    }

    /**
     * `import_pfsense_log` for the chosen path (empty when the file dialog
     * was cancelled) and the lines read from it.
     */
    method ImportPfSenseLog(path: string, logLines: seq<string>)
      modifies this
      ensures dialog == old(dialog) && disk == old(disk)
      ensures var found := PfSense.DomainsOf(logLines);
              if path == "" || found == {} then text == old(text) && isModified == old(isModified)
              else !isModified &&
                   exists domains :: Sorted(domains) && |domains| == |found| &&
                                     (forall d :: d in domains <==> d in found) &&
                                     text == Rendered(PfSense.Imported(old(GetLines()), PfSense.Basename(path), domains))
    {
      if path == "" {
        return;
      }
      var extractedDomains := PfSense.ExtractDomains(logLines);
      if extractedDomains == {} {
        return;
      }
      var currentLines := GetLines();
      var newDomains := PfSense.SortedList(extractedDomains);
      SetText(PfSense.Imported(currentLines, PfSense.Basename(path), newDomains));
    }
  }
}
