/** The node type that the link, the hot array and the time ring of one process share. */
module FdRecords {
  import opened Common

  /** unsigned int: a negative return value of sys_open becomes a number of at least 2^31. */
  type Fd = x: int | 0 <= x < 0x1_0000_0000

  /** file_fd_record. fd and filename are written once, when the record is allocated. */
  class FileFdRecord {
    const fd: Fd
    const filename: CString
    var prev: FileFdRecord?
    var next: FileFdRecord?
    var timePrev: FileFdRecord?
    var timeNext: FileFdRecord?
    var hotIndex: int

    constructor (fd: Fd, filename: CString)
      ensures this.fd == fd && this.filename == filename
      ensures hotIndex == 0
    {
      this.fd := fd;
      this.filename := filename;
      hotIndex := 0;
      prev, next, timePrev, timeNext := null, null, null, null;
    }
  }
}
