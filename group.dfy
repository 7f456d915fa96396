/** The grouper and the stack the loader drives. How files are split into
    coherent series, which series is the largest and how a series is put in
    slice order are not part of this model: a `GroupingPolicy` stands for
    those decisions, and the classes below apply it to what they were given. */
module Group {
  import opened DicomTypes
  import opened Reporting

  /** What `sort_and_get_parameters` produces for one group: the group in
      slice order, its geometry, and the events it reported. */
  datatype SortedGroup = SortedGroup(
    slices: seq<Item>,
    sliceThickness: real,
    globalOriginMm: seq<real>,
    sortedPositions: seq<seq<real>>,
    events: seq<Event>)

  /** The grouping decisions, as functions of the files added so far. */
  datatype GroupingPolicy = GroupingPolicy(
    numberOfGroups: seq<Item> -> nat,
    largestGroup: seq<Item> -> seq<Item>,
    sortGroup: seq<Item> -> SortedGroup)

  /** `DicomGrouper`: collects the files in the order they are added. */
  class DicomGrouper {
    const policy: GroupingPolicy
    var items: seq<Item>

    constructor (policy: GroupingPolicy)
      ensures this.policy == policy && items == []
    {
      this.policy := policy;
      items := [];
    }

    method AddItem(filename: FilePath, metadata: Metadata)
      modifies this
      ensures items == old(items) + [Item(filename, metadata)]
    {
      items := items + [Item(filename, metadata)];
    }

    method NumberOfGroups() returns (count: nat)
      ensures count == policy.numberOfGroups(items)
    {
      count := policy.numberOfGroups(items);
    }

    method LargestStack() returns (stack: DicomStack)
      ensures fresh(stack)
      ensures stack.slices == policy.largestGroup(items) && stack.policy == policy
    {
      stack := new DicomStack(policy, policy.largestGroup(items));
    }
  }

  /** `DicomStack`: one group, sorted in place by `SortAndGetParameters`. */
  class DicomStack {
    const policy: GroupingPolicy
    var slices: seq<Item>

    constructor (policy: GroupingPolicy, slices: seq<Item>)
      ensures this.policy == policy && this.slices == slices
    {
      this.policy := policy;
      this.slices := slices;
    }

    method SortAndGetParameters(reporting: Reporter)
      returns (sliceThickness: real, globalOriginMm: seq<real>, sortedPositions: seq<seq<real>>)
      modifies this, reporting
      ensures var sorted := policy.sortGroup(old(slices));
              && slices == sorted.slices
              && reporting.log == old(reporting.log) + sorted.events
              && sliceThickness == sorted.sliceThickness
              && globalOriginMm == sorted.globalOriginMm
              && sortedPositions == sorted.sortedPositions
    {
      var sorted := policy.sortGroup(slices);
      slices := sorted.slices;
      reporting.log := reporting.log + sorted.events;
      sliceThickness, globalOriginMm, sortedPositions :=
        sorted.sliceThickness, sorted.globalOriginMm, sorted.sortedPositions;
    }
  }
}
