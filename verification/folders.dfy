/** The scan that picks the most recently modified sub-directory of the logs
    directory (`get_latest_folder`). The directory listing and the conversion of
    each entry's last-write time to `time_t` are host facilities, so the scan
    receives the listing as a sequence of entries. */
module Folders {

  /** One entry of a directory listing: whether it is a directory, its last-write
      time in `time_t` seconds, and its path. */
  datatype Entry = Entry(isDirectory: bool, time: int, path: string)

  /** An entry the scan can select: a directory modified after the epoch
      (the running maximum starts at 0 and only a strictly later time replaces it). */
  predicate IsCandidate(e: Entry) {
    e.isDirectory && e.time > 0
  }

  predicate HasCandidate(entries: seq<Entry>) {
    exists k :: 0 <= k < |entries| && IsCandidate(entries[k])
  }

  /** Entry `k` is the one the scan keeps: a candidate strictly newer than every
      directory listed before it and at least as new as every directory listed
      after it, so among equally new directories the first one listed wins. */
  ghost predicate IsLatest(entries: seq<Entry>, k: int) {
    0 <= k < |entries| && IsCandidate(entries[k]) &&
    (forall j :: 0 <= j < k && entries[j].isDirectory ==> entries[j].time < entries[k].time) &&
    (forall j :: k < j < |entries| && entries[j].isDirectory ==> entries[j].time <= entries[k].time)
  }

  /** `folder` is what the scan returns: the path of the latest directory, or the
      empty string when no directory was modified after the epoch. */
  ghost predicate IsLatestFolder(entries: seq<Entry>, folder: string) {
    if HasCandidate(entries) then
      exists k :: IsLatest(entries, k) && folder == entries[k].path
    else
      folder == ""
  }

  /** Only one entry can be the latest one. */
  lemma LatestIsUnique(entries: seq<Entry>, k1: int, k2: int)
    requires IsLatest(entries, k1) && IsLatest(entries, k2)
    ensures k1 == k2
  {
  }

  /** The scan's result is determined by the listing. */
  lemma LatestFolderIsUnique(entries: seq<Entry>, f1: string, f2: string)
    requires IsLatestFolder(entries, f1) && IsLatestFolder(entries, f2)
    ensures f1 == f2
  {
    if HasCandidate(entries) {
      var k1 :| IsLatest(entries, k1) && f1 == entries[k1].path;
      var k2 :| IsLatest(entries, k2) && f2 == entries[k2].path;
      LatestIsUnique(entries, k1, k2);
    }
  }

  /** The scan over the listing: keeps the running maximum `latestTime` (starting
      at 0) and the path that reached it, replacing both only on a directory whose
      time is strictly greater. */
  method LatestFolder(entries: seq<Entry>) returns (folder: string)
    ensures IsLatestFolder(entries, folder)
  {
    folder := "";
    var latestTime := 0;
    ghost var k := -1;
    for i := 0 to |entries|
      invariant -1 <= k < i
      invariant k == -1 ==> folder == "" && latestTime == 0
      invariant k == -1 ==> forall j :: 0 <= j < i ==> !IsCandidate(entries[j])
      invariant k != -1 ==> IsCandidate(entries[k]) && folder == entries[k].path && latestTime == entries[k].time
      invariant k != -1 ==> forall j :: 0 <= j < k && entries[j].isDirectory ==> entries[j].time < latestTime
      invariant k != -1 ==> forall j :: k < j < i && entries[j].isDirectory ==> entries[j].time <= latestTime
    {
      var entry := entries[i];
      if entry.isDirectory {
        if entry.time > latestTime {
          latestTime := entry.time;
          folder := entry.path;
          k := i;
        }
      }
    }
    if k != -1 {
      assert IsLatest(entries, k);
    }
  }
}
