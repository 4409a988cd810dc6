/** The sample index of mp3dec_ex_t and its binary search. */
module Index {

  /** mp3dec_frame_t: the number of samples before a frame and where the frame lies. */
  datatype Entry = Entry(sample: nat, offset: nat)

  /** Offsets increase; samples start at 0 and do not decrease, and only 0 is repeated. */
  ghost predicate WellFormed(index: seq<Entry>) {
    (|index| > 0 ==> index[0].sample == 0) &&
    (forall i, j :: 0 <= i < j < |index| ==>
       index[i].offset < index[j].offset && index[i].sample <= index[j].sample &&
       (index[i].sample == index[j].sample ==> index[i].sample == 0))
  }

  /** The last entry at or before a position. */
  ghost predicate IsTarget(index: seq<Entry>, position: nat, t: nat) {
    t < |index| && index[t].sample <= position && forall j :: t < j < |index| ==> index[j].sample > position
  }

  /** mp3dec_idx_binary_search. */
  method BinarySearch(index: seq<Entry>, position: nat) returns (t: nat)
    requires |index| > 0 && WellFormed(index) && position > 0
    ensures IsTarget(index, position, t)
  {
    var start: nat, end: nat := 0, |index|;
    t := 0;
    while start <= end
      invariant start < |index| && end <= |index| && start <= end + 1
      invariant t == if start == 0 then 0 else start - 1
      invariant forall j :: 0 <= j < start ==> index[j].sample < position
      invariant forall j :: end < j < |index| ==> index[j].sample > position
      decreases end + 1 - start
    {
      var mid := (start + end) / 2;
      if index[mid].sample >= position {
        if index[mid].sample == position {
          return mid;
        }
        end := mid - 1;
      } else {
        t := mid;
        start := mid + 1;
        if start == |index| {
          break;
        }
      }
    }
  }
}
